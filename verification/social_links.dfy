/** Naming the platform of a social link from its icon's class list, by
    the first keyword, in a fixed priority order, that occurs in it. */
module SocialLinks {

  import opened Wrappers
  import opened Text

  /** Keyword looked for in the class string, and the platform it names,
      in the order they are tried. */
  const Rules: seq<(string, string)> := [
    ("linkedin", "LinkedIn"),
    ("instagram", "Instagram"),
    ("facebook", "Facebook"),
    ("whatsapp", "WhatsApp")
  ]

  const Fallback: string := "Social Media"

  /** The chained conditional over `className.includes(...)`. */
  function Platform(className: string): (name: string)
  {
    if Contains(className, "linkedin") then "LinkedIn"
    else if Contains(className, "instagram") then "Instagram"
    else if Contains(className, "facebook") then "Facebook"
    else if Contains(className, "whatsapp") then "WhatsApp"
    else Fallback
  }

  /** The position of the first rule whose keyword occurs in `className`. */
  function FirstMatch(rules: seq<(string, string)>, className: string): (r: Option<nat>)
    ensures r.None? <==> forall k :: 0 <= k < |rules| ==> !Contains(className, rules[k].0)
    ensures r.Some? ==>
              && r.value < |rules|
              && Contains(className, rules[r.value].0)
              && forall k :: 0 <= k < r.value ==> !Contains(className, rules[k].0)
  {
    if rules == [] then None
    else if Contains(className, rules[0].0) then Some(0)
    else
      var rest := rules[1..];
      assert forall k :: 0 < k < |rules| ==> rules[k] == rest[k - 1];
      match FirstMatch(rest, className)
      case None => None
      case Some(k) => Some(k + 1)
  }

  /** Label of the first matching rule, or the fallback. */
  function LabelOf(rules: seq<(string, string)>, className: string): string {
    match FirstMatch(rules, className)
    case Some(k) => rules[k].1
    case None => Fallback
  }

  /** The chained conditional is the first-match-wins rule over the table:
      the platform named is that of the highest-priority keyword present,
      and the fallback is chosen only when no keyword is present. */
  lemma PlatformIsFirstMatch(className: string)
    ensures Platform(className) == LabelOf(Rules, className)
    ensures Platform(className) == Fallback <==>
              forall k :: 0 <= k < |Rules| ==> !Contains(className, Rules[k].0)
  {
    assert Rules[0].0 == "linkedin" && Rules[1].0 == "instagram";
    assert Rules[2].0 == "facebook" && Rules[3].0 == "whatsapp";
    var r := FirstMatch(Rules, className);
    if r.Some? {
      assert r.value == 0 || r.value == 1 || r.value == 2 || r.value == 3;
    }
  }

  /** Any class naming both LinkedIn and Facebook is reported as LinkedIn. */
  lemma LinkedInBeatsFacebook(className: string)
    requires Contains(className, "linkedin") && Contains(className, "facebook")
    ensures Platform(className) == "LinkedIn"
  {
  }

  /** A concrete class string with both keywords meets that requirement. */
  lemma LinkedInBeatsFacebookExample()
    ensures Platform("fab fa-linkedin fa-facebook") == "LinkedIn"
  {
    var c := "fab fa-linkedin fa-facebook";
    assert "linkedin" <= c[7..];
  }
}
