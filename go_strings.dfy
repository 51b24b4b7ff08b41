/**
 * The parts of Go's `strings` package the agent relies on: `TrimSpace` and
 * `Split` with a one-character separator, over strings of decoded code points.
 */
module GoStrings {

  /** Go's `unicode.IsSpace`: the Unicode White_Space property. */
  predicate IsSpace(c: char) {
    ('\t' <= c <= '\r') || c == ' ' || c == '\U{85}' || c == '\U{A0}' || c == '\U{1680}'
    || ('\U{2000}' <= c <= '\U{200A}') || c == '\U{2028}' || c == '\U{2029}'
    || c == '\U{202F}' || c == '\U{205F}' || c == '\U{3000}'
  }

  predicate AllSpace(s: string) {
    forall i :: 0 <= i < |s| ==> IsSpace(s[i])
  }

  /** Non-empty, and neither end is white space: what `TrimSpace` leaves alone. */
  predicate Tight(s: string) {
    s != [] && !IsSpace(s[0]) && !IsSpace(s[|s| - 1])
  }

  /** `strings.TrimLeftFunc(s, unicode.IsSpace)`. */
  function TrimLeft(s: string): string {
    if s != [] && IsSpace(s[0]) then TrimLeft(s[1..]) else s
  }

  /** `strings.TrimRightFunc(s, unicode.IsSpace)`. */
  function TrimRight(s: string): string {
    if s != [] && IsSpace(s[|s| - 1]) then TrimRight(s[..|s| - 1]) else s
  }

  /** `strings.TrimSpace`: leading and trailing white space removed. */
  function TrimSpace(s: string): string {
    TrimRight(TrimLeft(s))
  }

  /** `TrimLeft` keeps the longest suffix that does not start with white space. */
  lemma {:induction false} TrimLeftSuffix(s: string)
    ensures var r := TrimLeft(s);
      |r| <= |s| && r == s[|s| - |r|..] && AllSpace(s[..|s| - |r|]) && (r != [] ==> !IsSpace(r[0]))
  {
    if s != [] && IsSpace(s[0]) {
      TrimLeftSuffix(s[1..]);
      var r := TrimLeft(s);
      assert s[..|s| - |r|] == [s[0]] + s[1..][..|s| - 1 - |r|];
    }
  }

  /** `TrimRight` keeps the longest prefix that does not end in white space. */
  lemma {:induction false} TrimRightPrefix(s: string)
    ensures var r := TrimRight(s);
      |r| <= |s| && r == s[..|r|] && AllSpace(s[|r|..]) && (r != [] ==> !IsSpace(r[|r| - 1]))
  {
    if s != [] && IsSpace(s[|s| - 1]) {
      TrimRightPrefix(s[..|s| - 1]);
      var r := TrimRight(s);
      assert s[|r|..] == s[..|s| - 1][|r|..] + [s[|s| - 1]];
    }
  }

  /** What `TrimSpace` returns is empty or starts and ends with something other than white space. */
  lemma TrimSpaceTight(s: string)
    ensures TrimSpace(s) == [] || Tight(TrimSpace(s))
  {
    var l := TrimLeft(s);
    TrimLeftSuffix(s);
    TrimRightPrefix(l);
  }

  /** What `TrimSpace` removes is white space on either side of its result. */
  lemma TrimSpaceInfix(s: string)
    ensures |TrimSpace(s)| <= |TrimLeft(s)| <= |s|
    ensures var k := |s| - |TrimLeft(s)|; var j := k + |TrimSpace(s)|;
      s[k..j] == TrimSpace(s) && AllSpace(s[..k]) && AllSpace(s[j..])
  {
    var l := TrimLeft(s);
    TrimLeftSuffix(s);
    TrimRightPrefix(l);
    var k := |s| - |l|;
    var r := TrimRight(l);
    var j := k + |r|;
    assert r == l[..|r|] == s[k..j];
    assert l[|r|..] == s[j..];
  }

  /**
   * `TrimSpace` is determined by the previous lemma: whatever is wrapped in
   * white space on both sides and is itself empty or tight comes back out.
   */
  lemma TrimSpaceWrapped(w1: string, c: string, w2: string)
    requires AllSpace(w1) && AllSpace(w2)
    requires c == [] || Tight(c)
    ensures TrimSpace(w1 + c + w2) == c
  {
    TrimLeftSpaces(w1, c + w2);
    assert w1 + c + w2 == w1 + (c + w2);
    if c == [] {
      assert c + w2 == w2;
      TrimLeftAllSpace(w2);
    } else {
      TrimRightSpaces(c, w2);
    }
  }

  lemma {:induction false} TrimLeftSpaces(w: string, t: string)
    requires AllSpace(w)
    ensures TrimLeft(w + t) == TrimLeft(t)
  {
    if w != [] {
      assert (w + t)[0] == w[0];
      assert (w + t)[1..] == w[1..] + t;
      TrimLeftSpaces(w[1..], t);
    } else {
      assert w + t == t;
    }
  }

  lemma TrimLeftAllSpace(w: string)
    requires AllSpace(w)
    ensures TrimLeft(w) == []
  {
    TrimLeftSuffix(w);
  }

  lemma {:induction false} TrimRightSpaces(t: string, w: string)
    requires t != [] && !IsSpace(t[|t| - 1]) && AllSpace(w)
    ensures TrimRight(t + w) == t
  {
    if w != [] {
      var u := t + w;
      assert u[..|u| - 1] == t + w[..|w| - 1];
      TrimRightSpaces(t, w[..|w| - 1]);
    } else {
      assert t + w == t;
    }
  }

  /** `strings.Join(parts, string(sep))`. */
  function Join(parts: seq<string>, sep: char): string {
    if parts == [] then []
    else if |parts| == 1 then parts[0]
    else parts[0] + [sep] + Join(parts[1..], sep)
  }

  /** How often `c` occurs in `s`. */
  function Count(s: string, c: char): nat {
    if s == [] then 0 else (if s[0] == c then 1 else 0) + Count(s[1..], c)
  }

  /**
   * `strings.Split(s, string(sep))`: the pieces between separators, so always
   * one more piece than there are separators; the empty string gives `[""]`.
   */
  function Split(s: string, sep: char): (parts: seq<string>)
    ensures |parts| == Count(s, sep) + 1
    ensures forall i :: 0 <= i < |parts| ==> sep !in parts[i]
    ensures Join(parts, sep) == s
  {
    if s == [] then [[]]
    else
      var rest := Split(s[1..], sep);
      if s[0] == sep then
        var parts := [[]] + rest;
        assert parts[1..] == rest;
        parts
      else
        var head := [s[0]] + rest[0];
        assert sep !in head by {
          assert forall k :: 1 <= k < |head| ==> head[k] == rest[0][k - 1];
        }
        var parts := [head] + rest[1..];
        assert forall i :: 1 <= i < |parts| ==> parts[i] == rest[i];
        JoinConsHead([s[0]], rest, sep);
        parts
  }

  lemma JoinConsHead(x: string, parts: seq<string>, sep: char)
    requires parts != []
    ensures Join([x + parts[0]] + parts[1..], sep) == x + Join(parts, sep)
  {
    var p := [x + parts[0]] + parts[1..];
    assert p[1..] == parts[1..];
  }

  /** A separator occurs in a join of separator-free pieces exactly when there are several. */
  lemma {:induction false} JoinHasSep(parts: seq<string>, sep: char)
    requires forall i :: 0 <= i < |parts| ==> sep !in parts[i]
    ensures sep in Join(parts, sep) <==> |parts| > 1
  {
    if |parts| > 1 {
      assert Join(parts, sep)[|parts[0]|] == sep;
    }
  }

  /** Text before the first separator, and after it, are fixed by the whole. */
  lemma SplitAtFirstSep(a: string, b: string, c: string, d: string, sep: char)
    requires sep !in a && sep !in c
    requires a + [sep] + b == c + [sep] + d
    ensures a == c && b == d
  {
    var s := a + [sep] + b;
    assert forall k :: 0 <= k < |a| ==> s[k] == a[k];
    assert forall k :: 0 <= k < |c| ==> s[k] == c[k];
    assert s[|a|] == sep && s[|c|] == sep;
    assert |a| == |c|;
    assert a == s[..|a|] && c == s[..|c|];
    assert b == s[|a| + 1..] && d == s[|c| + 1..];
  }

  /** Joining separator-free pieces loses nothing. */
  lemma {:induction false} JoinInjective(p: seq<string>, q: seq<string>, sep: char)
    requires |p| >= 1 && |q| >= 1
    requires forall i :: 0 <= i < |p| ==> sep !in p[i]
    requires forall i :: 0 <= i < |q| ==> sep !in q[i]
    requires Join(p, sep) == Join(q, sep)
    ensures p == q
  {
    JoinHasSep(p, sep);
    JoinHasSep(q, sep);
    if |p| > 1 {
      SplitAtFirstSep(p[0], Join(p[1..], sep), q[0], Join(q[1..], sep), sep);
      JoinInjective(p[1..], q[1..], sep);
      assert p == [p[0]] + p[1..];
      assert q == [q[0]] + q[1..];
    }
  }

  /** `Split` undoes `Join` whenever no piece holds the separator. */
  lemma SplitJoin(parts: seq<string>, sep: char)
    requires |parts| >= 1
    requires forall i :: 0 <= i < |parts| ==> sep !in parts[i]
    ensures Split(Join(parts, sep), sep) == parts
  {
    JoinInjective(Split(Join(parts, sep), sep), parts, sep);
  }

  /** Each piece of `core` with white space before and after it, as a sender may pad fields. */
  function Wrap(core: seq<string>, before: seq<string>, after: seq<string>): (fields: seq<string>)
    requires |before| == |core| == |after|
    ensures |fields| == |core|
    ensures forall i :: 0 <= i < |core| ==> fields[i] == before[i] + core[i] + after[i]
  {
    seq(|core|, i requires 0 <= i < |core| => before[i] + core[i] + after[i])
  }

  /**
   * Trimming a joined line and splitting it again gives back the pieces,
   * each of which trims to the tight text it was built around.
   */
  lemma TrimSplitJoin(core: seq<string>, before: seq<string>, after: seq<string>, sep: char)
    requires |core| >= 1 && |before| == |core| == |after|
    requires !IsSpace(sep)
    requires forall i :: 0 <= i < |core| ==> Tight(core[i]) && sep !in core[i]
    requires forall i :: 0 <= i < |core| ==> AllSpace(before[i]) && AllSpace(after[i])
    ensures var parts := Split(TrimSpace(Join(Wrap(core, before, after), sep)), sep);
      |parts| == |core| && forall i :: 0 <= i < |core| ==> TrimSpace(parts[i]) == core[i]
  {
    var n := |core|;
    var inner := before[0 := []];
    var outer := after[n - 1 := []];
    var trimmed := Wrap(core, inner, outer);
    JoinWrapped(core, before, after, sep);
    TrimSpaceWrapped(before[0], Join(trimmed, sep), after[n - 1]);
    forall i | 0 <= i < n
      ensures sep !in trimmed[i] && TrimSpace(trimmed[i]) == core[i]
    {
      SpaceFree(inner[i], sep);
      SpaceFree(outer[i], sep);
      TrimSpaceWrapped(inner[i], core[i], outer[i]);
    }
    SplitJoin(trimmed, sep);
  }

  /** The padding before the first piece and after the last lies outside the rest of the line, which is tight. */
  lemma JoinWrapped(core: seq<string>, before: seq<string>, after: seq<string>, sep: char)
    requires |core| >= 1 && |before| == |core| == |after|
    requires forall i :: 0 <= i < |core| ==> Tight(core[i])
    ensures var n := |core|;
      var line := Join(Wrap(core, before[0 := []], after[n - 1 := []]), sep);
      Join(Wrap(core, before, after), sep) == before[0] + line + after[n - 1] && Tight(line)
  {
    var n := |core|;
    var inner := before[0 := []];
    var outer := after[n - 1 := []];
    StripFront(core, before, after, sep);
    StripBack(core, inner, after, sep);
    var trimmed := Wrap(core, inner, outer);
    var line := Join(trimmed, sep);
    JoinEnds(trimmed, sep);
    TightEnds(line, core[0], core[n - 1], trimmed[0], trimmed[n - 1], outer[0], inner[n - 1]);
  }

  /** Padding before the first piece stays in front of the joined line. */
  lemma StripFront(core: seq<string>, before: seq<string>, after: seq<string>, sep: char)
    requires |core| >= 1 && |before| == |core| == |after|
    ensures Join(Wrap(core, before, after), sep) == before[0] + Join(Wrap(core, before[0 := []], after), sep)
  {
    var n := |core|;
    var fields := Wrap(core, before, after);
    var middle := Wrap(core, before[0 := []], after);
    assert fields[0] == before[0] + (core[0] + after[0]);
    JoinPeelFront(fields, before[0], core[0] + after[0], sep);
    assert middle[0] == [] + core[0] + after[0] == core[0] + after[0];
    assert forall i :: 1 <= i < n ==> middle[i] == fields[i];
    assert fields[0 := core[0] + after[0]] == middle;
  }

  /** Padding after the last piece stays behind the joined line. */
  lemma StripBack(core: seq<string>, before: seq<string>, after: seq<string>, sep: char)
    requires |core| >= 1 && |before| == |core| == |after|
    ensures Join(Wrap(core, before, after), sep) == Join(Wrap(core, before, after[|core| - 1 := []]), sep) + after[|core| - 1]
  {
    var n := |core|;
    var middle := Wrap(core, before, after);
    var trimmed := Wrap(core, before, after[n - 1 := []]);
    assert middle[n - 1] == (before[n - 1] + core[n - 1]) + after[n - 1];
    JoinPeelBack(middle, before[n - 1] + core[n - 1], after[n - 1], sep);
    assert trimmed[n - 1] == before[n - 1] + core[n - 1] + [] == before[n - 1] + core[n - 1];
    assert forall i :: 0 <= i < n - 1 ==> trimmed[i] == middle[i];
    assert middle[n - 1 := before[n - 1] + core[n - 1]] == trimmed;
  }

  lemma TightEnds(line: string, first: string, last: string, head: string, tail: string, bs: string, fs: string)
    requires Tight(first) && Tight(last)
    requires head == [] + first + bs && tail == fs + last + []
    requires |head| <= |line| && line[..|head|] == head
    requires |tail| <= |line| && line[|line| - |tail|..] == tail
    ensures Tight(line)
  {
    assert line[0] == head[0] == first[0];
    assert line[|line| - 1] == tail[|tail| - 1] == last[|last| - 1];
  }

  lemma SpaceFree(w: string, c: char)
    requires AllSpace(w) && !IsSpace(c)
    ensures c !in w
  {
  }

  lemma JoinPeelFront(parts: seq<string>, x: string, y: string, sep: char)
    requires |parts| >= 1 && parts[0] == x + y
    ensures Join(parts, sep) == x + Join(parts[0 := y], sep)
  {
    assert parts[0 := y][1..] == parts[1..];
  }

  lemma {:induction false} JoinPeelBack(parts: seq<string>, x: string, y: string, sep: char)
    requires |parts| >= 1 && parts[|parts| - 1] == x + y
    ensures Join(parts, sep) == Join(parts[|parts| - 1 := x], sep) + y
  {
    if |parts| > 1 {
      var n := |parts|;
      JoinPeelBack(parts[1..], x, y, sep);
      assert parts[n - 1 := x][1..] == parts[1..][n - 2 := x];
    }
  }

  /** A join starts with its first piece and ends with its last. */
  lemma {:induction false} JoinEnds(parts: seq<string>, sep: char)
    requires |parts| >= 1
    ensures var s := Join(parts, sep); var last := parts[|parts| - 1];
      |parts[0]| <= |s| && s[..|parts[0]|] == parts[0]
      && |last| <= |s| && s[|s| - |last|..] == last
  {
    if |parts| > 1 {
      JoinEnds(parts[1..], sep);
    }
  }
}
