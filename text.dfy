/**
 * The pieces of Python's string library that the agent relies on:
 * `str.isspace` (which is also what the regular-expression class `\s` matches),
 * `str.strip`, `str.splitlines` and `"\n".join`.
 */
module Text {

  /** Python's `str.isspace` for a single character: the ASCII separators and
      the Unicode space characters. */
  predicate IsSpace(c: char) {
    || c == ' '
    || ('\t' <= c <= '\r')
    || ('\U{1c}' <= c <= '\U{1f}')
    || c == '\U{85}' || c == '\U{a0}' || c == '\U{1680}'
    || ('\U{2000}' <= c <= '\U{200a}')
    || c == '\U{2028}' || c == '\U{2029}' || c == '\U{202f}' || c == '\U{205f}'
    || c == '\U{3000}'
  }

  predicate AllSpace(s: string) {
    forall k :: 0 <= k < |s| ==> IsSpace(s[k])
  }

  /** Neither end of `s` is whitespace: what `strip` leaves behind. */
  predicate IsStripped(s: string) {
    s == [] || (!IsSpace(s[0]) && !IsSpace(s[|s| - 1]))
  }

  /** Where the whitespace run that starts at `p` ends: the first position at
      or after `p` that is not whitespace, or |s|. */
  function SkipSpaces(s: string, p: nat): (q: nat)
    requires p <= |s|
    ensures p <= q <= |s|
    ensures q == |s| || !IsSpace(s[q])
    decreases |s| - p
  {
    if p < |s| && IsSpace(s[p]) then SkipSpaces(s, p + 1) else p
  }

  /** Where the whitespace run that ends at `q` starts. */
  function BackSpaces(s: string, q: nat): (p: nat)
    requires q <= |s|
    ensures p <= q
    ensures p == 0 || !IsSpace(s[p - 1])
  {
    if q > 0 && IsSpace(s[q - 1]) then BackSpaces(s, q - 1) else q
  }

  lemma {:induction false} SkipSpacesSkipsSpaces(s: string, p: nat)
    requires p <= |s|
    ensures forall k :: p <= k < SkipSpaces(s, p) ==> IsSpace(s[k])
    decreases |s| - p
  {
    if p < |s| && IsSpace(s[p]) {
      SkipSpacesSkipsSpaces(s, p + 1);
    }
  }

  lemma {:induction false} BackSpacesSkipsSpaces(s: string, q: nat)
    requires q <= |s|
    ensures forall k :: BackSpaces(s, q) <= k < q ==> IsSpace(s[k])
  {
    if q > 0 && IsSpace(s[q - 1]) {
      BackSpacesSkipsSpaces(s, q - 1);
    }
  }

  /** SkipSpaces finds the only whitespace run from `p` that is not followed by
      whitespace. */
  lemma {:induction false} SkipSpacesIs(s: string, p: nat, q: nat)
    requires p <= q <= |s| && (forall k :: p <= k < q ==> IsSpace(s[k])) && (q == |s| || !IsSpace(s[q]))
    ensures SkipSpaces(s, p) == q
    decreases q - p
  {
    if p < q {
      SkipSpacesIs(s, p + 1, q);
    }
  }

  lemma {:induction false} BackSpacesIs(s: string, q: nat, p: nat)
    requires p <= q <= |s| && (forall k :: p <= k < q ==> IsSpace(s[k])) && (p == 0 || !IsSpace(s[p - 1]))
    ensures BackSpaces(s, q) == p
    decreases q - p
  {
    if p < q {
      BackSpacesIs(s, q - 1, p);
    }
  }

  /** The length of the whitespace run at the start of `s`. */
  function LeadingSpaces(s: string): nat {
    SkipSpaces(s, 0)
  }

  /** Python's `s.lstrip()`, which is also what the regex `^\s*` passes over. */
  function LStrip(s: string): string {
    s[SkipSpaces(s, 0)..]
  }

  /** Python's `s.strip()`: the text between the leading and the trailing
      whitespace run. */
  function Strip(s: string): string {
    var i := SkipSpaces(s, 0);
    var j := BackSpaces(s, |s|);
    if j <= i then [] else s[i..j]
  }

  lemma AllSpaceConcat(x: string, y: string)
    requires AllSpace(x) && AllSpace(y)
    ensures AllSpace(x + y)
  {
    forall k | 0 <= k < |x + y| ensures IsSpace((x + y)[k]) {
      if k >= |x| { assert (x + y)[k] == y[k - |x|]; }
    }
  }

  /** LeadingSpaces is the only length of a leading whitespace run that is
      not followed by whitespace. */
  lemma LeadingSpacesIs(s: string, n: nat)
    requires n <= |s| && (forall k :: 0 <= k < n ==> IsSpace(s[k])) && (n == |s| || !IsSpace(s[n]))
    ensures LeadingSpaces(s) == n
  {
    SkipSpacesIs(s, 0, n);
  }

  /** Indentation made of whitespace does not change what `lstrip` leaves. */
  lemma LStripOverSpace(a: string, b: string)
    requires AllSpace(a)
    ensures LStrip(a + b) == LStrip(b)
  {
    var n := SkipSpaces(b, 0);
    SkipSpacesSkipsSpaces(b, 0);
    forall k | 0 <= k < |a| + n ensures IsSpace((a + b)[k]) {
      if k >= |a| { assert (a + b)[k] == b[k - |a|]; }
    }
    if n < |b| { assert (a + b)[|a| + n] == b[n]; }
    SkipSpacesIs(a + b, 0, |a| + n);
    assert (a + b)[|a| + n..] == b[n..];
  }

  /** `strip` keeps the middle of its argument, between a leading and a
      trailing run of whitespace, and that middle is stripped. */
  lemma StripSplits(s: string)
    ensures IsStripped(Strip(s))
    ensures LeadingSpaces(s) + |Strip(s)| <= |s|
    ensures Strip(s) == s[LeadingSpaces(s)..LeadingSpaces(s) + |Strip(s)|]
    ensures AllSpace(s[..LeadingSpaces(s)])
    ensures AllSpace(s[LeadingSpaces(s) + |Strip(s)|..])
  {
    var i := SkipSpaces(s, 0);
    var j := BackSpaces(s, |s|);
    SkipSpacesSkipsSpaces(s, 0);
    BackSpacesSkipsSpaces(s, |s|);
    AllSpaceSlice(s, 0, i);
    assert i < |s| ==> i < j;
    if i < j {
      AllSpaceSlice(s, j, |s|);
    }
  }

  lemma AllSpaceSlice(s: string, a: nat, b: nat)
    requires a <= b <= |s| && forall k :: a <= k < b ==> IsSpace(s[k])
    ensures AllSpace(s[a..b])
  {
    assert forall k :: 0 <= k < b - a ==> s[a..b][k] == s[a + k];
  }

  /** The decomposition of StripSplits is the only one: whatever whitespace
      surrounds a stripped text, `strip` recovers exactly that text. */
  lemma StripUnique(a: string, m: string, b: string)
    requires AllSpace(a) && AllSpace(b) && IsStripped(m)
    ensures Strip(a + m + b) == m
  {
    var s := a + m + b;
    assert forall k :: 0 <= k < |a| ==> s[k] == a[k];
    assert forall k :: |a| + |m| <= k < |s| ==> s[k] == b[k - |a| - |m|];
    if m == [] {
      SkipSpacesIs(s, 0, |s|);
    } else {
      assert s[|a|] == m[0] && s[|a| + |m| - 1] == m[|m| - 1];
      SkipSpacesIs(s, 0, |a|);
      BackSpacesIs(s, |s|, |a| + |m|);
      assert s[|a|..|a| + |m|] == m;
    }
  }

  /** A stripped text is left alone by `strip`. */
  lemma StripStripped(m: string)
    requires IsStripped(m)
    ensures Strip(m) == m
  {
    StripUnique([], m, []);
    assert [] + m + [] == m;
  }

  /** `not s.strip()` holds exactly for the all-whitespace texts. */
  lemma StripEmpty(s: string)
    ensures Strip(s) == [] <==> AllSpace(s)
  {
    if AllSpace(s) {
      SkipSpacesIs(s, 0, |s|);
    } else {
      var k :| 0 <= k < |s| && !IsSpace(s[k]);
      SkipSpacesSkipsSpaces(s, 0);
      BackSpacesSkipsSpaces(s, |s|);
      assert SkipSpaces(s, 0) <= k < BackSpaces(s, |s|);
    }
  }

  /** Dropping one trailing whitespace character does not change what `strip` returns. */
  lemma StripDropLastSpace(s: string)
    requires s != [] && IsSpace(s[|s| - 1])
    ensures Strip(s[..|s| - 1]) == Strip(s)
  {
    assert s == s[..|s| - 1] + [s[|s| - 1]];
    StripAppendSpace(s[..|s| - 1], s[|s| - 1]);
  }

  /** Dropping one leading whitespace character does not change what `strip` returns. */
  lemma StripDropFirstSpace(s: string)
    requires s != [] && IsSpace(s[0])
    ensures Strip(s[1..]) == Strip(s)
  {
    assert s == [s[0]] + s[1..];
    StripPrependSpace(s[0], s[1..]);
  }

  lemma StripAppendSpace(t: string, c: char)
    requires IsSpace(c)
    ensures Strip(t + [c]) == Strip(t)
  {
    StripSplits(t);
    var i := LeadingSpaces(t);
    var m := Strip(t);
    var a := t[..i];
    var r := t[i + |m|..];
    AllSpaceConcat(r, [c]);
    assert t == a + m + r;
    assert t + [c] == a + m + (r + [c]);
    StripUnique(a, m, r + [c]);
  }

  lemma StripPrependSpace(c: char, t: string)
    requires IsSpace(c)
    ensures Strip([c] + t) == Strip(t)
  {
    StripSplits(t);
    var i := LeadingSpaces(t);
    var m := Strip(t);
    var l := t[..i];
    var b := t[i + |m|..];
    AllSpaceConcat([c], l);
    assert t == l + m + b;
    assert [c] + t == ([c] + l) + m + b;
    StripUnique([c] + l, m, b);
  }

  /** Where the line that `p` lies on ends: the next '\n' at or after `p`, or |s|. */
  function LineEnd(s: string, p: nat): (q: nat)
    requires p <= |s|
    ensures p <= q <= |s|
    ensures q == |s| || s[q] == '\n'
    decreases |s| - p
  {
    if p < |s| && s[p] != '\n' then LineEnd(s, p + 1) else p
  }

  lemma {:induction false} LineEndNoBreak(s: string, p: nat)
    requires p <= |s|
    ensures forall k :: p <= k < LineEnd(s, p) ==> s[k] != '\n'
    decreases |s| - p
  {
    if p < |s| && s[p] != '\n' {
      LineEndNoBreak(s, p + 1);
    }
  }

  lemma {:induction false} LineEndIs(s: string, p: nat, q: nat)
    requires p <= q <= |s| && (forall k :: p <= k < q ==> s[k] != '\n') && (q == |s| || s[q] == '\n')
    ensures LineEnd(s, p) == q
    decreases q - p
  {
    if p < q {
      LineEndIs(s, p + 1, q);
    }
  }

  /** A position inside a line belongs to the same line: the line ends where it ends. */
  lemma {:induction false} LineEndInside(s: string, p: nat, q: nat)
    requires p <= q <= |s| && q <= LineEnd(s, p)
    ensures LineEnd(s, q) == LineEnd(s, p)
    decreases q - p
  {
    if p < q {
      LineEndInside(s, p + 1, q);
    }
  }

  /** Python's `s.splitlines()` where '\n' is the only line break: a final
      line break does not start an empty last line. */
  function SplitLines(s: string): (lines: seq<string>)
    ensures forall k :: 0 <= k < |lines| ==> '\n' !in lines[k]
    decreases |s|
  {
    if s == [] then []
    else
      var k := LineEnd(s, 0);
      LineEndNoBreak(s, 0);
      if k == |s| then [s] else [s[..k]] + SplitLines(s[k + 1..])
  }

  /** Python's `"\n".join(lines)`. */
  function JoinLines(lines: seq<string>): string {
    if lines == [] then ""
    else if |lines| == 1 then lines[0]
    else lines[0] + "\n" + JoinLines(lines[1..])
  }

  lemma JoinCons(x: string, t: seq<string>)
    requires t != []
    ensures JoinLines([x] + t) == x + "\n" + JoinLines(t)
  {
    assert ([x] + t)[1..] == t;
  }

  lemma SplitLinesNonEmpty(s: string)
    requires s != []
    ensures SplitLines(s) != []
  {
  }

  /** Joining the split lines gives the text back, minus a final line break. */
  lemma {:induction false} JoinSplitLines(s: string)
    ensures JoinLines(SplitLines(s)) == if s != [] && s[|s| - 1] == '\n' then s[..|s| - 1] else s
    decreases |s|
  {
    if s != [] {
      var k := LineEnd(s, 0);
      if k < |s| {
        var rest := s[k + 1..];
        var line := s[..k];
        assert s == line + "\n" + rest;
        assert SplitLines(s) == [line] + SplitLines(rest);
        if rest == [] {
          assert s[..|s| - 1] == line;
        } else {
          JoinSplitLines(rest);
          SplitLinesNonEmpty(rest);
          JoinCons(line, SplitLines(rest));
          DropLastOfJoin(line, rest);
        }
      }
    }
  }

  lemma DropLastOfJoin(line: string, rest: string)
    requires rest != []
    ensures (line + "\n" + rest)[..|line| + |rest|] == line + "\n" + rest[..|rest| - 1]
    ensures (line + "\n" + rest)[|line| + |rest|] == rest[|rest| - 1]
  {
  }

  /** Splitting the joined lines gives them back when no line holds a line
      break and the last one is not empty. */
  lemma {:induction false} SplitJoinLines(lines: seq<string>)
    requires forall k :: 0 <= k < |lines| ==> '\n' !in lines[k]
    requires lines != [] ==> lines[|lines| - 1] != ""
    ensures SplitLines(JoinLines(lines)) == lines
  {
    if |lines| == 1 {
      LineEndIs(lines[0], 0, |lines[0]|);
    } else if |lines| > 1 {
      var rest := lines[1..];
      SplitJoinLines(rest);
      JoinNonEmpty(rest);
      SplitLinesCons(lines[0], JoinLines(rest));
      assert [lines[0]] + rest == lines;
    }
  }

  lemma JoinNonEmpty(lines: seq<string>)
    requires lines != [] && lines[|lines| - 1] != ""
    ensures JoinLines(lines) != []
  {
    if |lines| > 1 {
      JoinNonEmpty(lines[1..]);
    }
  }

  /** A first line without a line break, then a break, then a non-empty rest:
      the first line comes out first. */
  lemma SplitLinesCons(line: string, rest: string)
    requires '\n' !in line && rest != []
    ensures SplitLines(line + "\n" + rest) == [line] + SplitLines(rest)
  {
    var s := line + "\n" + rest;
    var k := |line|;
    assert forall j :: 0 <= j < k ==> s[j] == line[j];
    LineEndIs(s, 0, k);
    assert s[..k] == line;
    assert s[k + 1..] == rest;
  }

  predicate StartsWith(s: string, prefix: string) {
    |prefix| <= |s| && s[..|prefix|] == prefix
  }
}
