/**
 * The forgot-password form: the email check `/^[^\s@]+@[^\s@]+\.[^\s@]+$/`,
 * the submit handler, and the effect that clears the error whenever the
 * email changes.
 */
module Forgot {

  /** A character of JavaScript's `\s` class (white space and line terminators). */
  predicate IsWhitespace(c: char) {
    || c == '\t' || c == '\n' || c == '\U{000B}' || c == '\U{000C}' || c == '\r' || c == ' '
    || c == '\U{00A0}' || c == '\U{1680}' || ('\U{2000}' <= c <= '\U{200A}')
    || c == '\U{2028}' || c == '\U{2029}' || c == '\U{202F}' || c == '\U{205F}'
    || c == '\U{3000}' || c == '\U{FEFF}'
  }

  /** The class `[^\s@]`. */
  predicate IsWordChar(c: char) {
    !IsWhitespace(c) && c != '@'
  }

  /** `[^\s@]+` */
  predicate IsWord(w: string) {
    |w| > 0 && forall i :: 0 <= i < |w| ==> IsWordChar(w[i])
  }

  ghost predicate IsEmailSplit(s: string, a: string, b: string, c: string) {
    s == a + "@" + b + "." + c && IsWord(a) && IsWord(b) && IsWord(c)
  }

  /** The language of the anchored regex: `a@b.c` with three non-empty `[^\s@]` runs. */
  ghost predicate MatchesEmailRegex(s: string) {
    exists a, b, c :: IsEmailSplit(s, a, b, c)
  }

  function CountChar(s: string, c: char): nat
    decreases |s|
  {
    if |s| == 0 then 0 else (if s[0] == c then 1 else 0) + CountChar(s[1..], c)
  }

  /**
   * `isValidEmail`, decided without backtracking: no white space, exactly one
   * `@`, not in first place, and some `.` after it that is neither right
   * after the `@` nor the last character.
   */
  predicate IsValidEmail(s: string) {
    && (forall k :: 0 <= k < |s| ==> !IsWhitespace(s[k]))
    && CountChar(s, '@') == 1
    && exists i, j :: 0 < i && i + 1 < j < |s| - 1 && s[i] == '@' && s[j] == '.'
  }

  lemma {:induction false} CountConcat(x: string, y: string, c: char)
    ensures CountChar(x + y, c) == CountChar(x, c) + CountChar(y, c)
    decreases |x|
  {
    if |x| > 0 {
      assert (x + y)[0] == x[0] && (x + y)[1..] == x[1..] + y;
      CountConcat(x[1..], y, c);
    } else {
      assert x + y == y;
    }
  }

  lemma {:induction false} CountAbsent(s: string, c: char)
    requires c !in s
    ensures CountChar(s, c) == 0
    decreases |s|
  {
    if |s| > 0 {
      assert c !in s[1..];
      CountAbsent(s[1..], c);
    }
  }

  lemma {:induction false} CountPresent(s: string, c: char, i: nat)
    requires i < |s| && s[i] == c
    ensures CountChar(s, c) >= 1
    decreases |s|
  {
    if i > 0 {
      CountPresent(s[1..], c, i - 1);
    }
  }

  /** With a single `@`, every other position holds something else. */
  lemma OnlyOne(s: string, c: char, i: nat, k: nat)
    requires CountChar(s, c) == 1 && i < |s| && k < |s| && s[i] == c && i != k
    ensures s[k] != c
  {
    if s[k] == c {
      var lo := if i < k then i else k;
      var hi := if i < k then k else i;
      assert s == s[..lo + 1] + s[lo + 1..];
      CountConcat(s[..lo + 1], s[lo + 1..], c);
      assert s[..lo + 1][lo] == s[lo];
      CountPresent(s[..lo + 1], c, lo);
      assert s[lo + 1..][hi - lo - 1] == s[hi];
      CountPresent(s[lo + 1..], c, hi - lo - 1);
    }
  }

  lemma WordHasNoAt(w: string)
    requires IsWord(w)
    ensures CountChar(w, '@') == 0
  {
    CountAbsent(w, '@');
  }

  lemma RegexIsValid(s: string, a: string, b: string, c: string)
    requires IsEmailSplit(s, a, b, c)
    ensures IsValidEmail(s)
  {
    WordHasNoAt(a);
    WordHasNoAt(b);
    WordHasNoAt(c);
    CountConcat(a, "@", '@');
    CountConcat(a + "@", b, '@');
    CountConcat(a + "@" + b, ".", '@');
    CountConcat(a + "@" + b + ".", c, '@');
    var i := |a|;
    var j := |a| + 1 + |b|;
    assert s[i] == '@' && s[j] == '.';
    forall k | 0 <= k < |s| ensures !IsWhitespace(s[k]) {
      if k < i {
        assert s[k] == a[k];
      } else if i < k < j {
        assert s[k] == b[k - i - 1];
      } else if j < k {
        assert s[k] == c[k - j - 1];
      }
    }
  }

  lemma ValidIsRegex(s: string)
    requires IsValidEmail(s)
    ensures MatchesEmailRegex(s)
  {
    var i, j :| 0 < i && i + 1 < j < |s| - 1 && s[i] == '@' && s[j] == '.';
    var a, b, c := s[..i], s[i + 1..j], s[j + 1..];
    assert s == a + "@" + b + "." + c;
    forall k | 0 <= k < |s| && k != i ensures IsWordChar(s[k]) {
      OnlyOne(s, '@', i, k);
    }
    assert IsWord(a) by {
      forall k | 0 <= k < |a| ensures IsWordChar(a[k]) { assert a[k] == s[k]; }
    }
    assert IsWord(b) by {
      forall k | 0 <= k < |b| ensures IsWordChar(b[k]) { assert b[k] == s[i + 1 + k]; }
    }
    assert IsWord(c) by {
      forall k | 0 <= k < |c| ensures IsWordChar(c[k]) { assert c[k] == s[j + 1 + k]; }
    }
    assert IsEmailSplit(s, a, b, c);
  }

  /** The check accepts exactly the strings the regex matches. */
  lemma IsValidEmailMatchesRegex(s: string)
    ensures IsValidEmail(s) <==> MatchesEmailRegex(s)
  {
    if IsValidEmail(s) {
      ValidIsRegex(s);
    }
    if MatchesEmailRegex(s) {
      var a, b, c :| IsEmailSplit(s, a, b, c);
      RegexIsValid(s, a, b, c);
    }
  }

  /** A leading `@`, a `.` right after the `@` and a trailing `.` are rejected; a second `.` is fine. */
  lemma EmailExamples()
    ensures !IsValidEmail("@b.c") && !IsValidEmail("a@.c") && !IsValidEmail("a@b.")
    ensures IsValidEmail("a@b.c.d")
  {
    assert IsEmailSplit("a@b.c.d", "a", "b", "c.d");
    RegexIsValid("a@b.c.d", "a", "b", "c.d");
  }

  /** The form's state variables. */
  datatype Form = Form(email: string, error: string, success: bool)

  function Initial(): Form {
    Form("", "", false)
  }

  const InvalidEmailMessage := "Please enter a valid email address."

  /** `setEmail(value)`, followed by the effect on `[email]`, which runs only when the value changed. */
  function ChangeEmail(f: Form, value: string): (r: Form)
    ensures r.email == value && r.success == f.success
    ensures value != f.email ==> r.error == ""
    ensures value == f.email ==> r == f
  {
    if value == f.email then f else Form(value, "", f.success)
  }

  /**
   * `handleSubmit`: an invalid email only sets the error; a valid one marks
   * success and empties the field, and since the email then changes the
   * effect clears the error too.
   */
  function HandleSubmit(f: Form): (r: Form)
    ensures !IsValidEmail(f.email) ==> r == f.(error := InvalidEmailMessage)
    ensures IsValidEmail(f.email) ==> r == Form("", "", true)
  {
    if !IsValidEmail(f.email) then f.(error := InvalidEmailMessage)
    else ChangeEmail(f.(success := true), "")
  }

  datatype Event = Typed(value: string) | Submitted

  function Step(f: Form, e: Event): Form {
    match e
    case Typed(v) => ChangeEmail(f, v)
    case Submitted => HandleSubmit(f)
  }

  function Run(f: Form, events: seq<Event>): Form
    decreases |events|
  {
    if |events| == 0 then f else Run(Step(f, events[0]), events[1..])
  }

  /** A shown error is always the invalid-email message, about the email still in the field. */
  ghost predicate ErrorIsCurrent(f: Form) {
    f.error != "" ==> f.error == InvalidEmailMessage && !IsValidEmail(f.email)
  }

  lemma {:induction false} RunKeepsErrorCurrent(f: Form, events: seq<Event>)
    requires ErrorIsCurrent(f)
    ensures ErrorIsCurrent(Run(f, events))
    decreases |events|
  {
    if |events| > 0 {
      assert ErrorIsCurrent(Step(f, events[0]));
      RunKeepsErrorCurrent(Step(f, events[0]), events[1..]);
    }
  }

  lemma InitialErrorIsCurrent(events: seq<Event>)
    ensures ErrorIsCurrent(Run(Initial(), events))
  {
    RunKeepsErrorCurrent(Initial(), events);
  }
}
