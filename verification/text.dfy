/** String searching, splitting, joining and replacing, as JavaScript's
    `indexOf`, `split`, `join` and `replaceAll` do them on plain strings. */
module Text {
  import opened Common

  /** `pat` occurs in `s` starting at position `k`. */
  predicate StartsAt(s: string, pat: string, k: nat) {
    k + |pat| <= |s| && s[k..k + |pat|] == pat
  }

  /** `s.includes(pat)` */
  predicate Contains(s: string, pat: string) {
    exists k: nat :: k <= |s| && StartsAt(s, pat, k)
  }

  /** `s.indexOf(pat, i)`: the first occurrence of `pat` at or after `i`. */
  function IndexOf(s: string, pat: string, i: nat): (r: Option<nat>)
    decreases |s| - i
    ensures r.Some? ==> i <= r.value && StartsAt(s, pat, r.value)
    ensures r.Some? ==> forall k: nat :: i <= k < r.value ==> !StartsAt(s, pat, k)
    ensures r.None? ==> forall k: nat :: i <= k ==> !StartsAt(s, pat, k)
  {
    if |s| < i + |pat| then None
    else if StartsAt(s, pat, i) then Some(i)
    else IndexOf(s, pat, i + 1)
  }

  /** An occurrence at `j` bounds the first occurrence found from `i`. */
  lemma {:induction false} IndexOfAtMost(s: string, pat: string, i: nat, j: nat)
    requires i <= j && StartsAt(s, pat, j)
    ensures IndexOf(s, pat, i).Some? && IndexOf(s, pat, i).value <= j
    decreases j - i
  {
    if !StartsAt(s, pat, i) {
      IndexOfAtMost(s, pat, i + 1, j);
    }
  }

  /** Occurrences in a suffix are occurrences in the whole string, shifted. */
  lemma StartsAtSuffix(s: string, d: nat, pat: string, j: nat)
    requires d <= |s|
    ensures StartsAt(s[d..], pat, j) <==> StartsAt(s, pat, d + j)
  {
    if d + j + |pat| <= |s| {
      assert s[d..][j..j + |pat|] == s[d + j..d + j + |pat|];
    }
  }

  /** Occurrences in a prefix are occurrences in the whole string. */
  lemma StartsAtPrefix(s: string, n: nat, pat: string, j: nat)
    requires n <= |s| && StartsAt(s[..n], pat, j)
    ensures StartsAt(s, pat, j) && j + |pat| <= n
  {
    assert s[..n][j..j + |pat|] == s[j..j + |pat|];
  }

  /** `parts.join(sep)` */
  function Join(parts: seq<string>, sep: string): string {
    if |parts| == 0 then ""
    else if |parts| == 1 then parts[0]
    else parts[0] + sep + Join(parts[1..], sep)
  }

  /** Joining one more leading part adds it and one separator. */
  lemma JoinCons(x: string, rest: seq<string>, sep: string)
    requires |rest| >= 1
    ensures Join([x] + rest, sep) == x + sep + Join(rest, sep)
  {
    assert ([x] + rest)[1..] == rest;
  }

  /** Joining two non-empty lists of parts puts one separator between
      their joins. */
  lemma {:induction false} JoinAppend(a: seq<string>, b: seq<string>, sep: string)
    requires |a| >= 1 && |b| >= 1
    ensures Join(a + b, sep) == Join(a, sep) + sep + Join(b, sep)
    decreases |a|
  {
    if |a| == 1 {
      JoinCons(a[0], b, sep);
      assert [a[0]] + b == a + b;
    } else {
      JoinAppend(a[1..], b, sep);
      assert (a + b)[1..] == a[1..] + b;
      assert (a + b)[0] == a[0];
    }
  }

  /** `s.split(sep)`: the pieces between the non-overlapping occurrences of
      `sep`, found left to right. Joining them back with `sep` gives `s`,
      and no piece contains `sep`. */
  function SplitOn(s: string, sep: string): (parts: seq<string>)
    requires |sep| > 0
    decreases |s|
    ensures |parts| >= 1
    ensures Join(parts, sep) == s
    ensures forall i :: 0 <= i < |parts| ==> !Contains(parts[i], sep)
  {
    match IndexOf(s, sep, 0)
    case None => [s]
    case Some(k) =>
      var rest := SplitOn(s[k + |sep|..], sep);
      JoinCons(s[..k], rest, sep);
      assert s == s[..k] + sep + s[k + |sep|..] by {
        assert s[k..k + |sep|] == sep;
      }
      PrefixBeforeFirst(s, sep, k);
      [s[..k]] + rest
  }

  /** The text before the first occurrence holds no occurrence. */
  lemma PrefixBeforeFirst(s: string, pat: string, k: nat)
    requires |pat| > 0 && k <= |s|
    requires forall j: nat :: j < k ==> !StartsAt(s, pat, j)
    ensures !Contains(s[..k], pat)
  {
    if Contains(s[..k], pat) {
      var j: nat :| j <= k && StartsAt(s[..k], pat, j);
      StartsAtPrefix(s, k, pat, j);
    }
  }

  /** Every non-overlapping occurrence of `pat`, found left to right, is
      replaced by `rep` exactly as given. */
  function ReplaceAll(s: string, pat: string, rep: string): string
    requires |pat| > 0
    decreases |s|
  {
    if |s| < |pat| then s
    else if s[..|pat|] == pat then rep + ReplaceAll(s[|pat|..], pat, rep)
    else [s[0]] + ReplaceAll(s[1..], pat, rep)
  }

  /** Text without an occurrence is left as it is. */
  lemma {:induction false} ReplaceAllAbsent(s: string, pat: string, rep: string)
    requires |pat| > 0 && !Contains(s, pat)
    ensures ReplaceAll(s, pat, rep) == s
    decreases |s|
  {
    if |s| >= |pat| {
      assert !StartsAt(s, pat, 0);
      if Contains(s[1..], pat) {
        var j: nat :| j <= |s| - 1 && StartsAt(s[1..], pat, j);
        StartsAtSuffix(s, 1, pat, j);
      }
      ReplaceAllAbsent(s[1..], pat, rep);
      assert s == [s[0]] + s[1..];
    }
  }

  /** A stretch with no occurrence starting in it is copied through. */
  lemma {:induction false} ReplaceAllSkip(s: string, pat: string, rep: string, k: nat)
    requires |pat| > 0 && k <= |s|
    requires forall j: nat :: j < k ==> !StartsAt(s, pat, j)
    ensures ReplaceAll(s, pat, rep) == s[..k] + ReplaceAll(s[k..], pat, rep)
    decreases k
  {
    if k == 0 {
      assert s[..0] + s[0..] == s;
    } else if |s| < |pat| {
      assert s[..k] + s[k..] == s;
    } else {
      assert !StartsAt(s, pat, 0);
      forall j: nat | j < k - 1
        ensures !StartsAt(s[1..], pat, j)
      {
        StartsAtSuffix(s, 1, pat, j);
      }
      ReplaceAllSkip(s[1..], pat, rep, k - 1);
      assert s[1..][..k - 1] == s[1..k];
      assert s[1..][k - 1..] == s[k..];
      assert [s[0]] + s[1..k] == s[..k];
    }
  }

  /** `ReplaceAll` splits the text at the occurrences of `pat` and joins
      the pieces with `rep`: every occurrence, and nothing else, is
      replaced. With `rep == pat` this gives back `s`. */
  lemma {:induction false} ReplaceAllIsSplitJoin(s: string, pat: string, rep: string)
    requires |pat| > 0
    ensures ReplaceAll(s, pat, rep) == Join(SplitOn(s, pat), rep)
    decreases |s|
  {
    match IndexOf(s, pat, 0)
    case None =>
      assert !Contains(s, pat);
      ReplaceAllAbsent(s, pat, rep);
    case Some(k) =>
      ReplaceAllSkip(s, pat, rep, k);
      var t := s[k..];
      assert t[..|pat|] == pat;
      assert t[|pat|..] == s[k + |pat|..];
      ReplaceAllIsSplitJoin(s[k + |pat|..], pat, rep);
      JoinCons(s[..k], SplitOn(s[k + |pat|..], pat), rep);
  }

  /** ECMAScript's GetSubstitution for a string pattern (no capture
      groups): `$$` is a dollar, `$&` the matched text, `` $` `` the text
      before the match, `$'` the text after it; any other `$` is literal. */
  function Substitute(rep: string, matched: string, before: string, after: string): string
    decreases |rep|
  {
    if |rep| == 0 then ""
    else if rep[0] == '$' && |rep| >= 2 && rep[1] == '$' then "$" + Substitute(rep[2..], matched, before, after)
    else if rep[0] == '$' && |rep| >= 2 && rep[1] == '&' then matched + Substitute(rep[2..], matched, before, after)
    else if rep[0] == '$' && |rep| >= 2 && rep[1] == '`' then before + Substitute(rep[2..], matched, before, after)
    else if rep[0] == '$' && |rep| >= 2 && rep[1] == '\'' then after + Substitute(rep[2..], matched, before, after)
    else [rep[0]] + Substitute(rep[1..], matched, before, after)
  }

  /** A replacement without `$` is inserted as it is. */
  lemma {:induction false} SubstituteVerbatim(rep: string, matched: string, before: string, after: string)
    requires '$' !in rep
    ensures Substitute(rep, matched, before, after) == rep
    decreases |rep|
  {
    if |rep| > 0 {
      assert rep[0] != '$';
      assert forall c :: c in rep[1..] ==> c in rep;
      SubstituteVerbatim(rep[1..], matched, before, after);
      assert rep == [rep[0]] + rep[1..];
    }
  }

  /** `s.replaceAll(pat, rep)` in ECMAScript, with a string `rep`: the
      occurrences are found left to right, without overlap, in the original
      string, and each is replaced by `rep` after `$` expansion. */
  function ReplaceAllJs(s: string, pat: string, rep: string): string
    requires |pat| > 0
  {
    ReplaceAllJsFrom(s, pat, rep, 0)
  }

  function ReplaceAllJsFrom(s: string, pat: string, rep: string, i: nat): string
    requires |pat| > 0 && i <= |s|
    decreases |s| - i
  {
    if |s| - i < |pat| then s[i..]
    else if StartsAt(s, pat, i) then
      Substitute(rep, pat, s[..i], s[i + |pat|..]) + ReplaceAllJsFrom(s, pat, rep, i + |pat|)
    else [s[i]] + ReplaceAllJsFrom(s, pat, rep, i + 1)
  }

  /** When the replacement holds no `$`, ECMAScript's `replaceAll` is the
      verbatim replacement. */
  lemma {:induction false} ReplaceAllJsVerbatim(s: string, pat: string, rep: string, i: nat)
    requires |pat| > 0 && i <= |s| && '$' !in rep
    ensures ReplaceAllJsFrom(s, pat, rep, i) == ReplaceAll(s[i..], pat, rep)
    decreases |s| - i
  {
    if |s| - i < |pat| {
    } else if StartsAt(s, pat, i) {
      ReplaceAllJsVerbatim(s, pat, rep, i + |pat|);
      JsMatchStep(s, pat, rep, i);
    } else {
      ReplaceAllJsVerbatim(s, pat, rep, i + 1);
      JsMissStep(s, pat, rep, i);
    }
  }

  /** One occurrence at `i`: both replacements insert `rep` there. */
  lemma JsMatchStep(s: string, pat: string, rep: string, i: nat)
    requires |pat| > 0 && i <= |s| && '$' !in rep && StartsAt(s, pat, i)
    requires ReplaceAllJsFrom(s, pat, rep, i + |pat|) == ReplaceAll(s[i + |pat|..], pat, rep)
    ensures ReplaceAllJsFrom(s, pat, rep, i) == ReplaceAll(s[i..], pat, rep)
  {
    var after := s[i + |pat|..];
    SubstituteVerbatim(rep, pat, s[..i], after);
    assert ReplaceAllJsFrom(s, pat, rep, i) == rep + ReplaceAll(after, pat, rep);
    ReplaceAllMatch(s[i..], pat, rep, after);
  }

  /** No occurrence at `i`: both copy the character there. */
  lemma JsMissStep(s: string, pat: string, rep: string, i: nat)
    requires |pat| > 0 && i + |pat| <= |s| && !StartsAt(s, pat, i)
    requires ReplaceAllJsFrom(s, pat, rep, i + 1) == ReplaceAll(s[i + 1..], pat, rep)
    ensures ReplaceAllJsFrom(s, pat, rep, i) == ReplaceAll(s[i..], pat, rep)
  {
    assert ReplaceAllJsFrom(s, pat, rep, i) == [s[i]] + ReplaceAll(s[i + 1..], pat, rep);
    ReplaceAllMiss(s[i..], pat, rep, s[i + 1..]);
  }

  /** `ReplaceAll` on a text that starts with the pattern. */
  lemma ReplaceAllMatch(t: string, pat: string, rep: string, after: string)
    requires |pat| > 0 && |t| >= |pat| && t[..|pat|] == pat && after == t[|pat|..]
    ensures ReplaceAll(t, pat, rep) == rep + ReplaceAll(after, pat, rep)
  {
  }

  /** `ReplaceAll` on a text that does not start with the pattern. */
  lemma ReplaceAllMiss(t: string, pat: string, rep: string, after: string)
    requires |pat| > 0 && |t| >= |pat| && t[..|pat|] != pat && after == t[1..]
    ensures ReplaceAll(t, pat, rep) == [t[0]] + ReplaceAll(after, pat, rep)
  {
  }
}
