/**
 * The JavaScript string primitives the codec is built from, over `seq<char>`:
 * `indexOf`, `split` and `replace` with a string pattern, `Array.prototype.join`,
 * and array indexing that may yield `undefined`.
 */
module Strings {
  import opened Wrappers

  /** `pat` occurs in `s` starting at index `i`. */
  predicate OccursAt(s: string, pat: string, i: nat) {
    i + |pat| <= |s| && s[i..i + |pat|] == pat
  }

  /** The first index at or after `from` where `pat` occurs in `s`, as `s.indexOf(pat, from)`. */
  function FindFrom(s: string, pat: string, from: nat): (r: Option<nat>)
    requires from <= |s|
    ensures r.Some? ==> from <= r.value && OccursAt(s, pat, r.value)
    ensures r.Some? ==> forall j: nat :: from <= j < r.value ==> !OccursAt(s, pat, j)
    ensures r.None? ==> forall j: nat :: from <= j ==> !OccursAt(s, pat, j)
    decreases |s| - from
  {
    if from + |pat| > |s| then None
    else if OccursAt(s, pat, from) then Some(from)
    else FindFrom(s, pat, from + 1)
  }

  /** The first occurrence of `pat` in `s`, or None when `s.indexOf(pat)` is -1. */
  function Find(s: string, pat: string): (r: Option<nat>)
    ensures r.Some? ==> OccursAt(s, pat, r.value)
    ensures r.Some? ==> forall j: nat :: j < r.value ==> !OccursAt(s, pat, j)
    ensures r.None? <==> forall j: nat :: !OccursAt(s, pat, j)
  {
    FindFrom(s, pat, 0)
  }

  /** `parts.join(sep)`. */
  function Join(parts: seq<string>, sep: string): string
    decreases |parts|
  {
    if |parts| == 0 then ""
    else if |parts| == 1 then parts[0]
    else parts[0] + sep + Join(parts[1..], sep)
  }

  /**
   * `s.split(sep)` for a non-empty string separator: the text before each
   * leftmost occurrence, scanning on after it, and finally the remainder.
   * Joining the pieces back with `sep` gives `s` again.
   */
  function Split(s: string, sep: string): (parts: seq<string>)
    requires |sep| > 0
    ensures |parts| >= 1
    ensures Join(parts, sep) == s
    decreases |s|
  {
    match Find(s, sep)
    case None => [s]
    case Some(i) =>
      var rest := Split(s[i + |sep|..], sep);
      assert s == s[..i] + sep + s[i + |sep|..] by {
        assert s[i..i + |sep|] == sep;
      }
      assert ([s[..i]] + rest)[1..] == rest;
      [s[..i]] + rest
  }

  /** `s.replace(pat, rep)` with a string pattern: only the first occurrence is replaced. */
  function ReplaceFirst(s: string, pat: string, rep: string): string {
    match Find(s, pat)
    case None => s
    case Some(i) => s[..i] + rep + s[i + |pat|..]
  }

  /** `xs[i]`, which is `undefined` past the end. */
  function At(xs: seq<string>, i: nat): Option<string> {
    if i < |xs| then Some(xs[i]) else None
  }

  /** A pattern whose first character does not occur in `a` is found right after `a`. */
  lemma FindAt(a: string, pat: string, b: string)
    requires |pat| > 0 && pat[0] !in a
    ensures Find(a + pat + b, pat) == Some(|a|)
  {
    var s := a + pat + b;
    assert s[|a|..|a| + |pat|] == pat;
    assert OccursAt(s, pat, |a|);
    var i := Find(s, pat).value;
    assert s[i..i + |pat|][0] == pat[0];
  }

  /** A pattern one of whose characters is missing from `s` is not found. */
  lemma FindNone(s: string, pat: string, k: nat)
    requires k < |pat| && pat[k] !in s
    ensures Find(s, pat) == None
  {
    forall j: nat | j + |pat| <= |s| ensures !OccursAt(s, pat, j) {
      assert s[j..j + |pat|][k] == s[j + k];
    }
  }

  lemma SplitAt(a: string, sep: string, b: string)
    requires |sep| > 0 && sep[0] !in a
    ensures Split(a + sep + b, sep) == [a] + Split(b, sep)
  {
    var s := a + sep + b;
    FindAt(a, sep, b);
    assert s[..|a|] == a;
    assert s[|a| + |sep|..] == b;
  }

  lemma SplitWhole(s: string, sep: string, k: nat)
    requires |sep| > 0 && k < |sep| && sep[k] !in s
    ensures Split(s, sep) == [s]
  {
    FindNone(s, sep, k);
  }

  /** Two pieces free of the separator's first character split apart again. */
  lemma SplitPair(a: string, sep: string, b: string)
    requires |sep| > 0 && sep[0] !in a && sep[0] !in b
    ensures Split(a + sep + b, sep) == [a, b]
  {
    SplitAt(a, sep, b);
    SplitWhole(b, sep, 0);
  }

  /** Splitting undoes joining when no piece contains the separator's first character. */
  lemma {:induction false} SplitJoin(parts: seq<string>, sep: string)
    requires |parts| > 0 && |sep| > 0
    requires forall i :: 0 <= i < |parts| ==> sep[0] !in parts[i]
    ensures Split(Join(parts, sep), sep) == parts
    decreases |parts|
  {
    if |parts| == 1 {
      SplitWhole(parts[0], sep, 0);
    } else {
      SplitJoin(parts[1..], sep);
      SplitAt(parts[0], sep, Join(parts[1..], sep));
      assert [parts[0]] + parts[1..] == parts;
    }
  }

  /** Text free of the separator glued before a join stays with the first piece when split again. */
  lemma SplitJoinAfter(x: string, parts: seq<string>, sep: string)
    requires |parts| > 0 && |sep| > 0 && sep[0] !in x
    requires forall i :: 0 <= i < |parts| ==> sep[0] !in parts[i]
    ensures Split(x + Join(parts, sep), sep) == [x + parts[0]] + parts[1..]
  {
    if |parts| == 1 {
      SplitWhole(x + parts[0], sep, 0);
    } else {
      var rest := Join(parts[1..], sep);
      assert x + Join(parts, sep) == (x + parts[0]) + sep + rest;
      SplitAt(x + parts[0], sep, rest);
      SplitJoin(parts[1..], sep);
    }
  }

  /** A character found neither in the pieces nor in the separator is not in the join. */
  lemma {:induction false} JoinExcludes(parts: seq<string>, sep: string, c: char)
    requires c !in sep
    requires forall i :: 0 <= i < |parts| ==> c !in parts[i]
    ensures c !in Join(parts, sep)
    decreases |parts|
  {
    if |parts| > 1 {
      JoinExcludes(parts[1..], sep, c);
      assert c !in parts[0];
    }
  }

  lemma ReplaceAt(a: string, pat: string, b: string, rep: string)
    requires |pat| > 0 && pat[0] !in a
    ensures ReplaceFirst(a + pat + b, pat, rep) == a + rep + b
  {
    var s := a + pat + b;
    FindAt(a, pat, b);
    assert s[..|a|] == a;
    assert s[|a| + |pat|..] == b;
  }

  /** Removing a leading `p` and then the first `q` strips `p + body + q` down to `body`. */
  lemma StripAround(p: string, body: string, q: string)
    requires |p| > 0 && |q| > 0 && q[0] !in body
    ensures ReplaceFirst(ReplaceFirst(p + body + q, p, ""), q, "") == body
  {
    var s := p + body + q;
    assert s == [] + p + (body + q);
    ReplaceAt([], p, body + q, "");
    var s1 := ReplaceFirst(s, p, "");
    assert s1 == body + q;
    assert s1 == body + q + [];
    ReplaceAt(body, q, [], "");
  }

  /**
   * `s.split(m)[1].split(q)[0]` on `p + m + body + q`: the text between the
   * marker and the closing delimiter, when the marker's first character is not
   * in `p`, its `k`-th character is not after it, and `q` does not start inside `body`.
   */
  lemma Between(p: string, m: string, body: string, q: string, k: nat)
    requires |m| > 0 && |q| > 0 && k < |m|
    requires m[0] !in p && m[k] !in body + q && q[0] !in body
    ensures At(Split(p + m + body + q, m), 1) == Some(body + q)
    ensures Split(body + q, q)[0] == body
  {
    var rest := body + q;
    assert p + m + body + q == p + m + rest;
    SplitAt(p, m, rest);
    SplitWhole(rest, m, k);
    SplitAt(body, q, []);
    assert rest == body + q + [];
  }

  /** A pattern absent from `q` whose last character is absent from `t` is absent from `q + t`. */
  lemma FindNoneAcross(q: string, t: string, m: string)
    requires |m| > 0 && m[|m| - 1] !in t && Find(q, m) == None
    ensures Find(q + t, m) == None
  {
    var s := q + t;
    forall j: nat | j + |m| <= |s| ensures !OccursAt(s, m, j) {
      assert s[j..j + |m|][|m| - 1] == s[j + |m| - 1];
      if j + |m| <= |q| {
        assert s[j..j + |m|] == q[j..j + |m|];
        assert !OccursAt(q, m, j);
      } else {
        assert s[j + |m| - 1] == t[j + |m| - 1 - |q|];
      }
    }
  }
}
