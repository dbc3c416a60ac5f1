/** The e-mail shape check `/^[^\s@]+@[^\s@]+\.[^\s@]+$/`: its meaning as a
    set of strings, the same set described by the features a reader sees in
    an accepted address, and a one-pass automaton that decides it. */
module EmailRegex {

  import opened Text

  /** A character of the class `[^\s@]`. */
  predicate Plain(c: char) {
    !IsWhitespace(c) && c != '@'
  }

  predicate AllPlain(s: string) {
    forall k :: 0 <= k < |s| ==> Plain(s[k])
  }

  /** `[^\s@]+` */
  predicate PlainRun(s: string) {
    |s| > 0 && AllPlain(s)
  }

  /** `s` matches the expression with its `@` at `i` and its literal `.` at `j`. */
  predicate MatchAt(s: string, i: int, j: int) {
    && 0 <= i < j < |s|
    && PlainRun(s[..i])
    && s[i] == '@'
    && PlainRun(s[i + 1..j])
    && s[j] == '.'
    && PlainRun(s[j + 1..])
  }

  /** The whole string matches: the regular expression is anchored at both
      ends, and the engine may pick any split that works. */
  predicate Matches(s: string) {
    exists i, j | 0 <= i < j < |s| :: MatchAt(s, i, j)
  }

  predicate NoWhitespace(s: string) {
    forall k :: 0 <= k < |s| ==> !IsWhitespace(s[k])
  }

  /** The features of an accepted address: no whitespace, exactly one `@`,
      which is not the first character, and a `.` after it that has at least
      one character on either side before the end. */
  predicate HasFeatures(s: string) {
    && NoWhitespace(s)
    && exists i | 0 < i < |s| ::
         && s[i] == '@'
         && (forall k | 0 <= k < |s| :: s[k] == '@' ==> k == i)
         && exists j | i + 1 < j < |s| - 1 :: s[j] == '.'
  }

  lemma MatchesIffFeatures(s: string)
    ensures Matches(s) <==> HasFeatures(s)
  {
    if Matches(s) {
      var i, j :| 0 <= i < j < |s| && MatchAt(s, i, j);
      forall k | 0 <= k < |s|
        ensures Plain(s[k]) || k == i
      {
        if k < i {
          assert s[..i][k] == s[k];
        } else if i < k < j {
          assert s[i + 1..j][k - i - 1] == s[k];
        } else if j < k {
          assert s[j + 1..][k - j - 1] == s[k];
        }
      }
      assert s[j] == '.';
    }
    if HasFeatures(s) {
      var i :| 0 < i < |s| && s[i] == '@'
               && (forall k | 0 <= k < |s| :: s[k] == '@' ==> k == i)
               && exists j | i + 1 < j < |s| - 1 :: s[j] == '.';
      var j :| i + 1 < j < |s| - 1 && s[j] == '.';
      assert MatchAt(s, i, j);
    }
  }

  /** States of the automaton compiled from the expression. */
  datatype Phase =
    | Start    // nothing read
    | Local    // inside the part before `@`
    | AfterAt  // just read the `@`
    | Host     // after `@`, no usable `.` read yet
    | Dot      // the last character is a usable `.`
    | Tld      // a usable `.` has a character after it: accepting
    | Reject   // no continuation can match

  function Step(q: Phase, c: char): Phase {
    if IsWhitespace(c) then Reject
    else match q
      case Start => if c == '@' then Reject else Local
      case Local => if c == '@' then AfterAt else Local
      case AfterAt => if c == '@' then Reject else Host
      case Host => if c == '@' then Reject else if c == '.' then Dot else Host
      case Dot => if c == '@' then Reject else Tld
      case Tld => if c == '@' then Reject else Tld
      case Reject => Reject
  }

  /** `p` splits at an `@` at `i` into two `@`-free, whitespace-free parts,
      the first of them non-empty. */
  predicate SplitAt(p: string, i: int) {
    0 < i < |p| && p[i] == '@' && AllPlain(p[..i]) && AllPlain(p[i + 1..])
  }

  predicate NoDot(s: string) {
    forall k :: 0 <= k < |s| ==> s[k] != '.'
  }

  /** Some character rules out every continuation: whitespace anywhere, a
      leading `@`, or a second `@`. */
  ghost predicate Stuck(p: string) {
    || (exists k :: 0 <= k < |p| && IsWhitespace(p[k]))
    || (|p| > 0 && p[0] == '@')
    || (exists x, y :: 0 <= x < y < |p| && p[x] == '@' && p[y] == '@')
  }

  /** What having read `p` and landed in `q` says about `p`. */
  ghost predicate Reached(q: Phase, p: string) {
    match q
    case Start => p == []
    case Local => PlainRun(p)
    case AfterAt => SplitAt(p, |p| - 1)
    case Host => exists i :: SplitAt(p, i) && i + 1 < |p| && NoDot(p[i + 2..])
    case Dot =>
      exists i :: SplitAt(p, i) && i + 2 < |p| && p[|p| - 1] == '.' && NoDot(p[i + 2..|p| - 1])
    case Tld => Matches(p)
    case Reject => Stuck(p)
  }

  lemma StepReaches(q: Phase, p: string, c: char)
    requires Reached(q, p)
    ensures Reached(Step(q, c), p + [c])
  {
    var p' := p + [c];
    assert p'[..|p|] == p;
    if IsWhitespace(c) {
      assert IsWhitespace(p'[|p|]);
    } else {
      match q
      case Start =>
      case Local =>
        if c == '@' {
          assert SplitAt(p', |p'| - 1);
        }
      case AfterAt =>
        if c == '@' {
          assert p'[|p| - 1] == '@';
        } else {
          assert p'[|p|..] == [c];
          assert SplitAt(p', |p| - 1);
        }
      case Host => StepFromHost(p, c);
      case Dot => StepFromDot(p, c);
      case Tld => StepFromTld(p, c);
      case Reject => StepFromReject(p, c);
    }
  }

  lemma StepFromHost(p: string, c: char)
    requires Reached(Host, p) && !IsWhitespace(c)
    ensures Reached(Step(Host, c), p + [c])
  {
    var p' := p + [c];
    var i :| SplitAt(p, i) && i + 1 < |p| && NoDot(p[i + 2..]);
    if c == '@' {
      assert p'[i] == '@' && p'[|p|] == '@';
    } else {
      assert p'[..i] == p[..i];
      assert p'[i + 1..] == p[i + 1..] + [c];
      assert SplitAt(p', i);
      if c == '.' {
        assert p'[i + 2..|p'| - 1] == p[i + 2..];
      } else {
        assert p'[i + 2..] == p[i + 2..] + [c];
      }
    }
  }

  lemma StepFromDot(p: string, c: char)
    requires Reached(Dot, p) && !IsWhitespace(c)
    ensures Reached(Step(Dot, c), p + [c])
  {
    var p' := p + [c];
    var i :| SplitAt(p, i) && i + 2 < |p| && p[|p| - 1] == '.' && NoDot(p[i + 2..|p| - 1]);
    if c == '@' {
      assert p'[i] == '@' && p'[|p|] == '@';
    } else {
      var j := |p| - 1;
      assert p'[..i] == p[..i];
      assert p'[i + 1..j] == p[i + 1..][..j - i - 1];
      assert p'[j + 1..] == [c];
      assert MatchAt(p', i, j);
    }
  }

  lemma StepFromTld(p: string, c: char)
    requires Reached(Tld, p) && !IsWhitespace(c)
    ensures Reached(Step(Tld, c), p + [c])
  {
    var p' := p + [c];
    var i, j :| 0 <= i < j < |p| && MatchAt(p, i, j);
    if c == '@' {
      assert p'[i] == '@' && p'[|p|] == '@';
    } else {
      assert p'[..i] == p[..i];
      assert p'[i + 1..j] == p[i + 1..j];
      assert p'[j + 1..] == p[j + 1..] + [c];
      assert MatchAt(p', i, j);
    }
  }

  lemma StepFromReject(p: string, c: char)
    requires Reached(Reject, p)
    ensures Reached(Step(Reject, c), p + [c])
  {
    var p' := p + [c];
    if exists k :: 0 <= k < |p| && IsWhitespace(p[k]) {
      var k :| 0 <= k < |p| && IsWhitespace(p[k]);
      assert IsWhitespace(p'[k]);
    } else if exists x, y :: 0 <= x < y < |p| && p[x] == '@' && p[y] == '@' {
      var x, y :| 0 <= x < y < |p| && p[x] == '@' && p[y] == '@';
      assert p'[x] == '@' && p'[y] == '@';
    } else {
      assert p'[0] == p[0];
    }
  }

  /** Only the accepting state is reached by a matching string. */
  lemma ReachedDecides(q: Phase, p: string)
    requires Reached(q, p)
    ensures q == Tld <==> Matches(p)
  {
    if q != Tld && Matches(p) {
      MatchesIffFeatures(p);
    }
  }

  /** `emailRegex.test(s)`, decided in one left-to-right pass. */
  method Scan(s: string) returns (ok: bool)
    ensures ok <==> Matches(s)
  {
    var q := Start;
    for k := 0 to |s|
      invariant Reached(q, s[..k])
    {
      StepReaches(q, s[..k], s[k]);
      assert s[..k + 1] == s[..k] + [s[k]];
      q := Step(q, s[k]);
    }
    assert s[..|s|] == s;
    ReachedDecides(q, s);
    ok := q == Tld;
  }
}
