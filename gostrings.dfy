/**
  The parts of Go's `strings` package, and the `unicode.IsSpace` test behind
  `strings.Fields` and `strings.TrimSpace`, that the kernel command-line codec
  relies on. Strings are sequences of Unicode scalar values.
 */
module GoStrings {

  /** Go's `unicode.IsSpace`: the Latin-1 spaces and the Unicode White_Space set. */
  predicate IsSpace(c: char) {
    || c == ' ' || c == '\t' || c == '\n' || c == '\U{0B}' || c == '\U{0C}' || c == '\r'
    || c == '\U{85}' || c == '\U{A0}' || c == '\U{1680}'
    || ('\U{2000}' <= c <= '\U{200A}')
    || c == '\U{2028}' || c == '\U{2029}' || c == '\U{202F}' || c == '\U{205F}' || c == '\U{3000}'
  }

  predicate NoSpace(s: string) {
    forall i :: 0 <= i < |s| ==> !IsSpace(s[i])
  }

  /** `p` occurs in `s` starting at index `i`. */
  predicate OccursAt(s: string, p: string, i: int) {
    0 <= i && i + |p| <= |s| && s[i..i + |p|] == p
  }

  /** The first occurrence of `p` in `s` at or after `from`, or -1. */
  function IndexFrom(s: string, p: string, from: nat): (r: int)
    requires from <= |s|
    ensures r == -1 || (from <= r && OccursAt(s, p, r))
    ensures forall j :: from <= j && (r == -1 || j < r) ==> !OccursAt(s, p, j)
    decreases |s| - from
  {
    if from + |p| > |s| then -1
    else if s[from..from + |p|] == p then from
    else IndexFrom(s, p, from + 1)
  }

  /** `strings.Index`: the first occurrence of `p` in `s`, or -1 when there is none. */
  function Index(s: string, p: string): (r: int)
    ensures r == -1 || OccursAt(s, p, r)
    ensures forall j :: 0 <= j && (r == -1 || j < r) ==> !OccursAt(s, p, j)
  {
    IndexFrom(s, p, 0)
  }

  /** `strings.Contains`. */
  predicate Contains(s: string, p: string)
    ensures Contains(s, p) <==> exists i :: OccursAt(s, p, i)
  {
    Index(s, p) >= 0
  }

  /**
    `strings.SplitN(s, sep, 2)`: `[s]` when `sep` does not occur, otherwise the
    text before and after the first occurrence.
   */
  function SplitAtFirst(s: string, sep: string): (r: seq<string>)
    requires sep != []
    ensures |r| == 1 || |r| == 2
    ensures |r| == 1 <==> !Contains(s, sep)
    ensures |r| == 1 ==> r[0] == s
    ensures |r| == 2 ==> s == r[0] + sep + r[1]
    ensures |r| == 2 ==> forall j :: 0 <= j < |r[0]| ==> !OccursAt(s, sep, j)
  {
    var i := Index(s, sep);
    if i < 0 then [s] else [s[..i], s[i + |sep|..]]
  }

  lemma OccursStartsWith(s: string, p: string)
    requires p != []
    ensures forall j :: OccursAt(s, p, j) ==> s[j] == p[0]
  {
    forall j | OccursAt(s, p, j) ensures s[j] == p[0] {
      assert s[j..j + |p|][0] == s[j];
    }
  }

  /** Splitting at a one-character separator: the first part never holds it, and there is a second part exactly when `s` holds it. */
  lemma SplitAtFirstChar(s: string, c: char)
    ensures c !in SplitAtFirst(s, [c])[0]
    ensures |SplitAtFirst(s, [c])| == 2 <==> c in s
  {
    var r := SplitAtFirst(s, [c]);
    forall j | 0 <= j < |s| && s[j] == c ensures OccursAt(s, [c], j) {
      assert s[j..j + 1] == [c];
    }
    if |r| == 2 {
      forall j | 0 <= j < |r[0]| ensures r[0][j] != c {
        assert s[j..j + 1] == [r[0][j]];
        assert !OccursAt(s, [c], j);
      }
      assert s[|r[0]|] == c;
    }
  }

  /** Drops leading white space. */
  function TrimLeft(s: string): (r: string)
    ensures |r| <= |s| && r == s[|s| - |r|..]
    ensures forall i :: 0 <= i < |s| - |r| ==> IsSpace(s[i])
    ensures r == [] || !IsSpace(r[0])
  {
    if s != [] && IsSpace(s[0]) then TrimLeft(s[1..]) else s
  }

  /** Drops trailing white space. */
  function TrimRight(s: string): (r: string)
    ensures |r| <= |s| && r == s[..|r|]
    ensures forall i :: |r| <= i < |s| ==> IsSpace(s[i])
    ensures r == [] || !IsSpace(r[|r| - 1])
  {
    if s != [] && IsSpace(s[|s| - 1]) then
      var r := TrimRight(s[..|s| - 1]);
      assert r == s[..|s| - 1][..|r|] == s[..|r|];
      r
    else s
  }

  /** `strings.TrimSpace`: `s` without its leading and trailing white space. */
  function TrimSpace(s: string): (r: string)
    ensures r == [] || (!IsSpace(r[0]) && !IsSpace(r[|r| - 1]))
    ensures var k := |s| - |TrimLeft(s)|;
      && OccursAt(s, r, k)
      && (forall j :: 0 <= j < k ==> IsSpace(s[j]))
      && (forall j :: k + |r| <= j < |s| ==> IsSpace(s[j]))
  {
    var l := TrimLeft(s);
    var r := TrimRight(l);
    TrimmedInside(s, l, r);
    r
  }

  /** Where the text that `TrimSpace` keeps sits inside `s`. */
  lemma TrimmedInside(s: string, l: string, r: string)
    requires |l| <= |s| && l == s[|s| - |l|..]
    requires |r| <= |l| && r == l[..|r|]
    requires forall i :: |r| <= i < |l| ==> IsSpace(l[i])
    ensures OccursAt(s, r, |s| - |l|)
    ensures forall j :: |s| - |l| + |r| <= j < |s| ==> IsSpace(s[j])
  {
    var k := |s| - |l|;
    assert s[k..k + |r|] == l[..|r|];
    forall j | k + |r| <= j < |s| ensures IsSpace(s[j]) {
      assert s[j] == l[j - k];
    }
  }

  /** The longest prefix of `s` without white space. */
  function Word(s: string): (w: string)
    ensures |w| <= |s| && w == s[..|w|] && NoSpace(w)
    ensures |w| == |s| || IsSpace(s[|w|])
  {
    if s == [] || IsSpace(s[0]) then [] else [s[0]] + Word(s[1..])
  }

  /** `strings.Fields`: the maximal runs of non-white-space characters, in order. */
  function Fields(s: string): (r: seq<string>)
    ensures forall i :: 0 <= i < |r| ==> r[i] != [] && NoSpace(r[i])
    decreases |s|
  {
    if s == [] then []
    else if IsSpace(s[0]) then Fields(s[1..])
    else
      var w := Word(s);
      [w] + Fields(s[|w|..])
  }

  /** `strings.Join`. */
  function Join(parts: seq<string>, sep: string): string {
    if |parts| == 0 then []
    else if |parts| == 1 then parts[0]
    else parts[0] + sep + Join(parts[1..], sep)
  }

  // Lemmas about these operations

  /**
    An occurrence of `p` in `a + " " + b` lies in `a`, lies in `b`, or covers
    the space between them.
   */
  lemma OccursAroundSpace(a: string, b: string, p: string, j: int)
    requires OccursAt(a + " " + b, p, j)
    ensures || OccursAt(a, p, j)
            || (j > |a| && OccursAt(b, p, j - |a| - 1))
            || (j <= |a| < j + |p| && p[|a| - j] == ' ')
  {
    var s := a + " " + b;
    if j > |a| {
      assert s[j..j + |p|] == b[j - |a| - 1..j - |a| - 1 + |p|];
    } else if j + |p| <= |a| {
      assert s[j..j + |p|] == a[j..j + |p|];
    } else {
      assert p[|a| - j] == s[j..j + |p|][|a| - j] == s[|a|];
    }
  }

  lemma {:induction false} JoinAvoids(parts: seq<string>, p: string)
    requires p != [] && ' ' !in p
    requires forall i :: 0 <= i < |parts| ==> !Contains(parts[i], p)
    ensures !Contains(Join(parts, " "), p)
  {
    if |parts| > 1 {
      var rest := Join(parts[1..], " ");
      JoinAvoids(parts[1..], p);
      assert !Contains(parts[0], p);
      if Contains(Join(parts, " "), p) {
        var j :| OccursAt(parts[0] + " " + rest, p, j);
        OccursAroundSpace(parts[0], rest, p, j);
        assert false;
      }
    }
  }

  /** Joining non-empty, space-free parts gives a string that neither starts nor ends with white space. */
  lemma {:induction false} JoinEnds(parts: seq<string>)
    requires forall i :: 0 <= i < |parts| ==> parts[i] != [] && NoSpace(parts[i])
    ensures var s := Join(parts, " ");
      s == [] <==> parts == []
    ensures var s := Join(parts, " ");
      s != [] ==> !IsSpace(s[0]) && !IsSpace(s[|s| - 1])
  {
    if |parts| > 1 {
      JoinEnds(parts[1..]);
      var rest := Join(parts[1..], " ");
      assert Join(parts, " ") == parts[0] + " " + rest;
    }
  }

  lemma {:induction false} WordOfWordThen(w: string, t: string)
    requires NoSpace(w)
    requires t == [] || IsSpace(t[0])
    ensures Word(w + t) == w
  {
    if w != [] {
      assert (w + t)[1..] == w[1..] + t;
      WordOfWordThen(w[1..], t);
    } else {
      assert w + t == t;
    }
  }

  lemma FieldsOfWordThen(w: string, t: string)
    requires w != [] && NoSpace(w)
    requires t == [] || IsSpace(t[0])
    ensures Fields(w + t) == [w] + Fields(t)
  {
    WordOfWordThen(w, t);
    assert (w + t)[|w|..] == t;
  }

  lemma FieldsOfSpaceThen(x: string)
    ensures Fields(" " + x) == Fields(x)
  {
    assert (" " + x)[1..] == x;
  }

  lemma ConsAppend<T>(x: seq<T>, y: seq<T>)
    requires x != []
    ensures x + y == [x[0]] + (x[1..] + y)
  {
    assert x == [x[0]] + x[1..];
  }

  lemma FieldsOfJoinStep(parts: seq<string>, t: string)
    requires |parts| > 1 && parts[0] != [] && NoSpace(parts[0])
    requires Fields(Join(parts[1..], " ") + t) == parts[1..] + Fields(t)
    ensures Fields(Join(parts, " ") + t) == parts + Fields(t)
  {
    var w, rest := parts[0], Join(parts[1..], " ");
    var after := " " + (rest + t);
    assert Join(parts, " ") + t == w + after;
    FieldsOfWordThen(w, after);
    FieldsOfSpaceThen(rest + t);
    ConsAppend(parts, Fields(t));
  }

  /** `strings.Fields` undoes a join with single spaces of non-empty, space-free parts. */
  lemma {:induction false} FieldsOfJoin(parts: seq<string>, t: string)
    requires forall i :: 0 <= i < |parts| ==> parts[i] != [] && NoSpace(parts[i])
    requires t == [] || IsSpace(t[0])
    ensures Fields(Join(parts, " ") + t) == parts + Fields(t)
  {
    if |parts| == 0 {
      assert Join(parts, " ") + t == t;
    } else if |parts| == 1 {
      FieldsOfWordThen(parts[0], t);
    } else {
      FieldsOfJoin(parts[1..], t);
      FieldsOfJoinStep(parts, t);
    }
  }

  lemma FieldsOfJoined(parts: seq<string>)
    requires forall i :: 0 <= i < |parts| ==> parts[i] != [] && NoSpace(parts[i])
    ensures Fields(Join(parts, " ")) == parts
  {
    FieldsOfJoin(parts, []);
    assert Join(parts, " ") + [] == Join(parts, " ");
  }

  lemma {:induction false} FieldsOfBlank(s: string)
    requires forall i :: 0 <= i < |s| ==> IsSpace(s[i])
    ensures Fields(s) == []
  {
    if s != [] {
      FieldsOfBlank(s[1..]);
    }
  }

  /** An occurrence in a slice is an occurrence in the whole. */
  lemma ContainsOfSlice(s: string, lo: int, hi: int, p: string)
    requires 0 <= lo <= hi <= |s|
    requires Contains(s[lo..hi], p)
    ensures Contains(s, p)
  {
    var j :| OccursAt(s[lo..hi], p, j);
    forall k | 0 <= k < |p| ensures s[lo + j + k] == p[k] {
      assert s[lo..hi][j..j + |p|][k] == p[k];
    }
    assert s[lo + j..lo + j + |p|] == p;
    assert OccursAt(s, p, lo + j);
  }

  lemma ContainsTransitive(s: string, f: string, p: string)
    requires Contains(s, f) && Contains(f, p)
    ensures Contains(s, p)
  {
    var i :| OccursAt(s, f, i);
    ContainsOfSlice(s, i, i + |f|, p);
  }

  /** Every field of `s` occurs in `s`. */
  lemma {:induction false} FieldsOccur(s: string)
    ensures forall i :: 0 <= i < |Fields(s)| ==> Contains(s, Fields(s)[i])
    decreases |s|
  {
    if s != [] {
      if IsSpace(s[0]) {
        FieldsOccur(s[1..]);
        assert s[1..|s|] == s[1..];
        forall i | 0 <= i < |Fields(s)| ensures Contains(s, Fields(s)[i]) {
          ContainsOfSlice(s, 1, |s|, Fields(s)[i]);
        }
      } else {
        var w := Word(s);
        FieldsOccur(s[|w|..]);
        assert s[|w|..|s|] == s[|w|..];
        assert OccursAt(s, w, 0);
        forall i | 0 <= i < |Fields(s)| ensures Contains(s, Fields(s)[i]) {
          if i > 0 {
            assert Fields(s)[i] == Fields(s[|w|..])[i - 1];
            ContainsOfSlice(s, |w|, |s|, Fields(s)[i]);
          }
        }
      }
    }
  }

  /** A string that does not start or end with white space is unchanged by trimming one trailing space. */
  lemma TrimSpaceOfPadded(s: string)
    requires s == [] || (!IsSpace(s[0]) && !IsSpace(s[|s| - 1]))
    ensures TrimSpace(s + " ") == s
  {
    var l := TrimLeft(s + " ");
    if s == [] {
      assert l == [];
    } else {
      assert |l| == |s| + 1;
      assert l == s + " ";
      var r := TrimRight(l);
      assert |r| == |s|;
    }
  }
}
