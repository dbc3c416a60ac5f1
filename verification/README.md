# Portfolio site script — model of its interaction rules

The site's script wires browser events to class and style changes. Stripped
of the browser, five rules remain, and this project states and proves them
over immutable values:

- **Contact form** (`ContactForm`, `EmailRegex`, `Text`): `validateForm`
  requires the fields `name`, `email`, `service` and `message` to be present,
  non-empty and not all whitespace after `trim`. It then checks the untrimmed
  e-mail against `/^[^\s@]+@[^\s@]+\.[^\s@]+$/`. The submit handler shows
  the success notification and resets the form, or shows the error
  notification and leaves the form alone. The expression has three parts:
  `EmailRegex.Matches` is its meaning as a set of strings,
  `EmailRegex.HasFeatures` describes the same set by the features of an
  accepted address, and `EmailRegex.Scan` is a single-pass seven-state
  automaton that decides it.
- **Portfolio filter** (`PortfolioFilter`): a click on a filter button makes
  that button the only active one. Each item is then displayed or hidden by
  `filter === 'all' || category === filter`. A missing attribute reads as
  null, so a button without `data-filter` shows exactly the items without
  `data-category`.
- **FAQ accordion** (`FaqAccordion`): a click on a question closes every item
  and reopens the clicked one if it had been closed. The same state machine
  is also given as "which item is open" (`FirstOpen`).
- **Mobile navigation** (`MobileNav`): the hamburger and menu `active` flags
  change under three listeners. A click runs the listener of the element it
  lands on and then bubbles to the document's listener.
- **Social links** (`SocialLinks`): the platform named for a link is chosen
  by the first of `linkedin`, `instagram`, `facebook`, `whatsapp` that occurs
  in the icon's class string, with `Social Media` as the fallback.

`Text.IsWhitespace` is the ECMAScript WhiteSpace and LineTerminator set.
`String.prototype.trim` and the class `\s` share it.

## Model

| member | source | states |
|---|---|---|
| `Text.TrimShape` | script.js:175 | `trim` keeps one block of the value. Only whitespace lies around that block, and the block neither starts nor ends with whitespace |
| `Text.TrimEmptyIff` | script.js:175 | `value.trim() === ''` holds exactly when every character of the value is whitespace |
| `ContactForm.FilledIff` | script.js:175 | a field passes the required check exactly when it is present and holds a non-whitespace character |
| `ContactForm.FirstUnfilled` | script.js:172-178 | the early-return loop stops at the first required field that fails, and every field before it passed. It runs to the end exactly when all fields pass |
| `ContactForm.ValidateForm` | script.js:171-187 | the form is valid exactly when all four required fields are filled and the e-mail as sent matches the expression |
| `ContactForm.RejectsUnfilled` | script.js:174-177 | any required field that is absent, empty or whitespace-only makes the form invalid, whatever the other fields hold |
| `ContactForm.UntrimmedEmailRejected` | script.js:174-183 | the expression sees the untrimmed e-mail. In an otherwise complete form, `" a@b.com"` passes the required check and its trimmed form matches, yet the form is refused |
| `ContactForm.AcceptsWellFormedExample` | script.js:171-187 | `{name:"A", email:"a@b.com", service:"x", message:"hi"}` is valid |
| `ContactForm.RejectsEmptyNameExample` | script.js:174-177 | the same form with an empty name is invalid |
| `ContactForm.Submit` | script.js:154-160 | the success notification appears exactly when validation passes, and then the form returns to its defaults. Otherwise the error notification appears and the fields are kept |
| `EmailRegex.MatchesIffFeatures` | script.js:181 | a string matches exactly when it has no whitespace and exactly one `@`, which is not first, followed later by a `.` with at least one character on each side |
| `EmailExamples.AcceptedExamples` | script.js:181-182 | `a@b.com` and `a@b.c.d` match |
| `EmailExamples.RejectedExamples` | script.js:181-182 | a string is refused if it has no `@` (`ab.com`) or no `.` after the `@` (`a@bcom`). It is also refused if nothing lies between the `@` and the `.` (`a@.com`) or nothing follows the `.` (`a@b.`) |
| `EmailExamples.RejectedByCharacterExamples` | script.js:181-182 | a second `@` (`a@@b.com`) or a space (`a b@c.com`) is refused |
| `EmailRegex.Scan` | script.js:181-182 | one left-to-right pass of the automaton accepts exactly the strings the expression matches |
| `PortfolioFilter.ClearActive` | script.js:64 | every button loses `active` and nothing else about it changes |
| `PortfolioFilter.ApplyFilter` | script.js:68-77 | every item keeps its category and is displayed exactly when the filter is `all` or equals its category. The number of items is unchanged |
| `PortfolioFilter.Click` | script.js:60-77 | after a click on button `k`, button `k` is the only active one, every button keeps its filter, and each item is displayed exactly when the button's filter selects it |
| `PortfolioFilter.ClickLeavesOneActive` | script.js:64-65 | whatever the prior state, exactly one filter button is active after a click |
| `PortfolioFilter.AllShowsEverything` | script.js:71-72 | the `all` button displays every item |
| `PortfolioFilter.LastClickWins` | script.js:60-77 | the state after a click depends only on the button clicked, so an earlier click leaves no trace |
| `FaqAccordion.Click` | script.js:92-104 | after a click on question `i`, every other item is closed and item `i` is open exactly when it was closed before |
| `FaqAccordion.ClickKeepsAtMostOneOpen` | script.js:95-103 | whatever the prior state, at most one item is open after a click |
| `FaqAccordion.ClickTwiceRestores` | script.js:93-103 | when no item other than `i` is open, a second click on `i` undoes the first |
| `FaqAccordion.ClickAsOpenIndex` | script.js:93-103 | viewed as "which item is open", a click on `i` closes `i` if it was the open one and otherwise opens `i` |
| `MobileNav.Dispatch` | script.js:29-48 | a click keeps the two flags in agreement. The hamburger flips both flags, a link or outside click closes both, and a click inside the menu changes nothing |
| `MobileNav.RunKeepsSynced` | script.js:29-47 | over any sequence of clicks the hamburger and menu flags stay equal if they started equal |
| `MobileNav.OutsideClickOnClosedIsNoOp` | script.js:43-47 | an outside click on a closed menu changes nothing |
| `MobileNav.ToggleTwiceRestores` | script.js:29-32 | two hamburger clicks return to the starting state |
| `MobileNav.HamburgerOpensIffClosed` | script.js:29-32 | when the flags agree, the hamburger opens the menu exactly when it was closed |
| `MobileNav.EndsClosed` | script.js:35-47 | a run of clicks whose last click is on a link or outside ends with the menu closed |
| `SocialLinks.FirstMatch` | script.js:425-428 | the first rule, in priority order, whose keyword occurs in the class string, or none when no keyword occurs |
| `SocialLinks.PlatformIsFirstMatch` | script.js:425-428 | the chained conditional names the platform of the highest-priority keyword present, and it falls back to `Social Media` exactly when no keyword is present |
| `SocialLinks.LinkedInBeatsFacebook` | script.js:425-428 | every class string containing both `linkedin` and `facebook` is reported as LinkedIn |
| `SocialLinks.LinkedInBeatsFacebookExample` | script.js:425-428 | the class `fab fa-linkedin fa-facebook` is reported as LinkedIn |

## Left out

- DOM querying and event binding are replaced by plain sequences and maps. This covers `querySelector`, `addEventListener`, `classList`, and collecting the fields with `FormData`.
- `showNotification`: building the element, its styling, the close button and the five-second auto-dismiss timer are presentation and timers. Only the message and kind the submit handler passes to it are modelled.
- The inline `animation` style the filter sets on displayed items is cosmetic and not modelled. Only whether each item is displayed is modelled.
- The portfolio item click's diagnostic log is not modelled.
- Smooth scrolling is not modelled: it reads layout positions and calls the browser's scrolling.
- The scroll-triggered reveal, the stats counter trigger and the counter animation are not modelled. They depend on the intersection observer, floating-point progress and animation frames.
- The testimonial rotation timer, the hover effects, the navbar scroll threshold and the injected CSS are not modelled. They are timers and cosmetic style assignments.
- The social link's redirect notification text and the cancelled navigation are not modelled. Only the platform choice is.
- Form values are modelled as strings only. A file entry under one of the four required names has no `trim`, so the check at script.js:175 would throw and the handler would show no notification. That path is not modelled.
- Strings are sequences of Unicode scalar values rather than UTF-16 code units. None of these rules can tell the two apart, because a surrogate half is neither whitespace nor `@`, and every keyword is ASCII.
- The initial state of the page is not modelled: which filter button, FAQ item or menu starts active comes from markup. The results are stated for any starting state, or for any agreeing state in the case of the menu flags.
