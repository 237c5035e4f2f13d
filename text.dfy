/**
  The handful of Python string operations the classifier and the experiment
  runner rely on: `str.isspace`, `str.strip()`, `sub in s`, `s.split(sep)` and
  `sep.join(parts)`, each defined on `seq<char>` and characterised by lemmas.
*/
module Text {
  import opened Wrappers

  // ---------------------------------------------------------------------
  // Whitespace and strip()
  // ---------------------------------------------------------------------

  /** Python's `str.isspace` for a single character: the characters that
      `str.strip()` with no argument removes. */
  predicate IsSpace(c: char)
  {
    ('\t' <= c <= '\r') || ('\U{1C}' <= c <= '\U{1F}') || c == ' '
    || c == '\U{85}' || c == '\U{A0}' || c == '\U{1680}'
    || ('\U{2000}' <= c <= '\U{200A}') || c == '\U{2028}' || c == '\U{2029}'
    || c == '\U{202F}' || c == '\U{205F}' || c == '\U{3000}'
  }

  predicate AllSpace(s: string)
  {
    forall k | 0 <= k < |s| :: IsSpace(s[k])
  }

  /** Neither the first nor the last character is whitespace. */
  predicate IsStripped(s: string)
  {
    |s| == 0 || (!IsSpace(s[0]) && !IsSpace(s[|s| - 1]))
  }

  /** Python's `s.lstrip()`: the suffix left once leading whitespace is
      removed. */
  function LStrip(s: string): (r: string)
    ensures |r| <= |s|
    ensures r == [] || !IsSpace(r[0])
    decreases |s|
  {
    if |s| > 0 && IsSpace(s[0]) then LStrip(s[1..]) else s
  }

  /** Python's `s.rstrip()`: the prefix left once trailing whitespace is
      removed. */
  function RStrip(s: string): (r: string)
    ensures |r| <= |s|
    ensures r == [] || !IsSpace(r[|r| - 1])
    decreases |s|
  {
    if |s| > 0 && IsSpace(s[|s| - 1]) then RStrip(s[..|s| - 1]) else s
  }

  /** Python's `s.strip()`: both ends' whitespace removed. */
  function Strip(s: string): (r: string)
    ensures IsStripped(r)
  {
    var l := LStrip(s);
    RStripHead(l);
    RStrip(l)
  }

  /** lstrip() removes a prefix of whitespace. */
  lemma {:induction false} LStripSplit(s: string) returns (a: string)
    ensures s == a + LStrip(s) && AllSpace(a)
    decreases |s|
  {
    if |s| > 0 && IsSpace(s[0]) {
      var a' := LStripSplit(s[1..]);
      a := [s[0]] + a';
      assert s == [s[0]] + s[1..];
      Assoc3([s[0]], a', LStrip(s));
    } else {
      a := [];
      assert s == [] + s;
    }
  }

  /** rstrip() removes a suffix of whitespace. */
  lemma {:induction false} RStripSplit(s: string) returns (b: string)
    ensures s == RStrip(s) + b && AllSpace(b)
    decreases |s|
  {
    if |s| > 0 && IsSpace(s[|s| - 1]) {
      var s' := s[..|s| - 1];
      var b' := RStripSplit(s');
      b := b' + [s[|s| - 1]];
      assert s == s' + [s[|s| - 1]];
      Assoc3(RStrip(s), b', [s[|s| - 1]]);
    } else {
      b := [];
      assert s == s + [];
    }
  }

  /** rstrip() keeps the first character of what it does not empty. */
  lemma RStripHead(s: string)
    ensures RStrip(s) == [] || RStrip(s)[0] == s[0]
  {
    var b := RStripSplit(s);
  }

  /** strip() cuts the string into whitespace, the result, and whitespace. */
  lemma StripParts(s: string) returns (a: string, b: string)
    ensures s == a + Strip(s) + b
    ensures AllSpace(a) && AllSpace(b)
  {
    var l := LStrip(s);
    a := LStripSplit(s);
    b := RStripSplit(l);
    Assoc3(a, RStrip(l), b);
  }

  lemma Cut<T>(s: seq<T>, i: nat)
    requires i <= |s|
    ensures s == s[..i] + s[i..]
  {
  }

  lemma Assoc3<T>(a: seq<T>, b: seq<T>, c: seq<T>)
    ensures a + (b + c) == a + b + c
  {
  }

  /** The middle of a concatenation occurs where it starts. */
  lemma OccursMiddle(a: string, t: string, b: string)
    ensures OccursAt(a + t + b, t, |a|)
  {
    assert (a + t + b)[|a|..|a| + |t|] == t;
  }

  /** lstrip() of whitespace followed by a non-blank start. */
  lemma {:induction false} LStripSpace(a: string, c: string)
    requires AllSpace(a) && (c == [] || !IsSpace(c[0]))
    ensures LStrip(a + c) == c
    decreases |a|
  {
    if a == [] {
      assert a + c == c;
    } else {
      assert (a + c)[1..] == a[1..] + c;
      LStripSpace(a[1..], c);
    }
  }

  /** rstrip() of a non-blank end followed by whitespace. */
  lemma {:induction false} RStripSpace(c: string, b: string)
    requires AllSpace(b) && (c == [] || !IsSpace(c[|c| - 1]))
    ensures RStrip(c + b) == c
    decreases |b|
  {
    if b == [] {
      assert c + b == c;
    } else {
      var b' := b[..|b| - 1];
      assert (c + b)[..|c + b| - 1] == c + b';
      RStripSpace(c, b');
    }
  }

  /** lstrip() stops at a non-blank character it reaches. */
  lemma {:induction false} LStripConcat(p: string, q: string)
    requires q != [] && !IsSpace(q[0])
    ensures LStrip(p + q) == LStrip(p) + q
    decreases |p|
  {
    if p == [] {
      assert p + q == q;
    } else if IsSpace(p[0]) {
      assert (p + q)[1..] == p[1..] + q;
      LStripConcat(p[1..], q);
    }
  }

  /** rstrip() stops at a non-blank character it reaches. */
  lemma {:induction false} RStripConcat(q: string, t: string)
    requires q != [] && !IsSpace(q[|q| - 1])
    ensures RStrip(q + t) == q + RStrip(t)
    decreases |t|
  {
    if t == [] {
      assert q + t == q;
    } else if IsSpace(t[|t| - 1]) {
      var t' := t[..|t| - 1];
      assert (q + t)[..|q + t| - 1] == q + t';
      RStripConcat(q, t');
    }
  }

  /** Whitespace followed by whitespace is whitespace. */
  lemma AllSpaceConcat(a: string, b: string)
    requires AllSpace(a) && AllSpace(b)
    ensures AllSpace(a + b)
  {
    forall k | 0 <= k < |a + b| ensures IsSpace((a + b)[k]) {
      if k >= |a| {
        assert (a + b)[k] == b[k - |a|];
      }
    }
  }

  /** The whitespace around an unpadded core is exactly what strip() removes:
      this pins Strip down independently of how it is computed. */
  lemma StripUnique(a: string, c: string, b: string)
    requires AllSpace(a) && AllSpace(b) && IsStripped(c)
    ensures Strip(a + c + b) == c
  {
    if c == [] {
      assert a + c + b == a + b;
      AllSpaceConcat(a, b);
      LStripSpace(a + b, []);
      assert a + b + [] == a + b;
    } else {
      assert a + c + b == a + (c + b);
      LStripSpace(a, c + b);
      RStripSpace(c, b);
    }
  }

  /** An unpadded string is left as it is. */
  lemma StripStripped(c: string)
    requires IsStripped(c)
    ensures Strip(c) == c
  {
    StripUnique([], c, []);
    assert [] + c + [] == c;
  }

  /** Leading whitespace alone is removed. */
  lemma StripLeading(a: string, c: string)
    requires AllSpace(a) && IsStripped(c)
    ensures Strip(a + c) == c
  {
    StripUnique(a, c, []);
    assert a + c + [] == a + c;
  }

  /** strip() is idempotent. */
  lemma StripIdempotent(s: string)
    ensures Strip(Strip(s)) == Strip(s)
  {
    StripStripped(Strip(s));
  }

  // ---------------------------------------------------------------------
  // Substrings: `t in s`
  // ---------------------------------------------------------------------

  /** `t` occurs in `s` starting at index `i`. */
  predicate OccursAt(s: string, t: string, i: int)
  {
    0 <= i && i + |t| <= |s| && s[i..i + |t|] == t
  }

  /** Python's `t in s` for strings. */
  predicate Contains(s: string, t: string)
  {
    exists i | 0 <= i <= |s| - |t| :: OccursAt(s, t, i)
  }

  /** An occurrence inside an infix is an occurrence in the whole string. */
  lemma OccursWithin(s: string, u: string, i: int, t: string, j: int)
    requires OccursAt(s, u, i) && OccursAt(u, t, j)
    ensures OccursAt(s, t, i + j)
  {
    forall k | 0 <= k < |t| ensures s[i + j + k] == t[k] {
      assert t[k] == u[j + k];
      assert u[j + k] == s[i + j + k];
    }
  }

  /** Being an infix is transitive. */
  lemma ContainsTrans(s: string, u: string, t: string)
    requires Contains(s, u) && Contains(u, t)
    ensures Contains(s, t)
  {
    var i :| 0 <= i <= |s| - |u| && OccursAt(s, u, i);
    var j :| 0 <= j <= |u| - |t| && OccursAt(u, t, j);
    OccursWithin(s, u, i, t, j);
  }

  /** A non-empty joint none of whose characters belongs to `t` keeps two
      strings without `t` from forming an occurrence of `t` across it. */
  lemma NoOccurrenceAcross(u: string, w: string, v: string, t: string)
    requires |t| > 0 && |w| > 0 && forall k | 0 <= k < |w| :: w[k] !in t
    requires !Contains(u, t) && !Contains(v, t)
    ensures !Contains(u + w + v, t)
  {
    var s := u + w + v;
    forall i | 0 <= i <= |s| - |t| ensures !OccursAt(s, t, i) {
      if i + |t| <= |u| {
        var here, there := s[i..i + |t|], u[i..i + |t|];
        forall m | 0 <= m < |t| ensures here[m] == there[m] {
          assert s[i + m] == u[i + m];
        }
        assert here == there;
        assert !OccursAt(u, t, i);
      } else if i >= |u| + |w| {
        var j := i - |u| - |w|;
        var here, there := s[i..i + |t|], v[j..j + |t|];
        forall m | 0 <= m < |t| ensures here[m] == there[m] {
          assert s[i + m] == v[j + m];
        }
        assert here == there;
        assert !OccursAt(v, t, j);
      } else {
        // the occurrence would cover a character of the joint
        var p := if i <= |u| then |u| else i;
        assert s[p] == w[p - |u|];
        assert t[p - i] in t;
        assert s[i..i + |t|][p - i] != t[p - i];
      }
    }
  }

  /** Occurrences in `s[1..]` are the occurrences in `s` shifted by one. */
  lemma OccursShift(s: string, t: string)
    requires |s| > 0
    ensures forall j | 0 <= j :: OccursAt(s[1..], t, j) <==> OccursAt(s, t, j + 1)
    ensures forall j | 1 <= j :: OccursAt(s, t, j) <==> OccursAt(s[1..], t, j - 1)
  {
    forall j | 0 <= j ensures OccursAt(s[1..], t, j) <==> OccursAt(s, t, j + 1) {
      if j + |t| <= |s| - 1 {
        assert s[1..][j..j + |t|] == s[j + 1..j + 1 + |t|];
      }
    }
  }

  /** For a one-character needle, `[c] in s` is `c in s`. */
  lemma ContainsChar(s: string, c: char)
    ensures Contains(s, [c]) <==> c in s
  {
    if c in s {
      var j :| 0 <= j < |s| && s[j] == c;
      assert OccursAt(s, [c], j);
    }
    if Contains(s, [c]) {
      var j :| 0 <= j <= |s| - 1 && OccursAt(s, [c], j);
      assert s[j] == s[j..j + 1][0];
    }
  }

  /** The index of the first (leftmost) occurrence of `sep`, as `str.find`. */
  function FindFirst(s: string, sep: string): (r: Option<nat>)
    requires |sep| > 0
    ensures r.Some? ==> OccursAt(s, sep, r.value)
    ensures r.Some? ==> forall j | 0 <= j < r.value :: !OccursAt(s, sep, j)
    ensures r.None? <==> !Contains(s, sep)
    decreases |s|
  {
    if |s| < |sep| then None
    else if s[..|sep|] == sep then Some(0)
    else
      OccursShift(s, sep);
      match FindFirst(s[1..], sep)
      case None => None
      case Some(i) => Some(i + 1)
  }

  // ---------------------------------------------------------------------
  // split(sep) and join
  // ---------------------------------------------------------------------

  /** Python's `s.split(sep)` for a non-empty separator: cut at the leftmost
      occurrence, then go on with what follows it. */
  function Split(s: string, sep: string): (parts: seq<string>)
    requires |sep| > 0
    ensures |parts| >= 1
    decreases |s|
  {
    match FindFirst(s, sep)
    case None => [s]
    case Some(i) => [s[..i]] + Split(s[i + |sep|..], sep)
  }

  /** Python's `sep.join(parts)`. */
  function Join(parts: seq<string>, sep: string): string
  {
    if |parts| == 0 then ""
    else if |parts| == 1 then parts[0]
    else parts[0] + sep + Join(parts[1..], sep)
  }

  lemma JoinCons(a: string, ps: seq<string>, sep: string)
    requires |ps| >= 1
    ensures Join([a] + ps, sep) == a + sep + Join(ps, sep)
  {
    assert ([a] + ps)[1..] == ps;
  }

  /** Python's `parts[-1]` on a non-empty list. */
  function Last<T>(parts: seq<T>): T
    requires |parts| > 0
  {
    parts[|parts| - 1]
  }

  /** Joining the pieces with the separator gives back the original string. */
  lemma {:induction false} JoinSplit(s: string, sep: string)
    requires |sep| > 0
    ensures Join(Split(s, sep), sep) == s
    decreases |s|
  {
    match FindFirst(s, sep)
    case None =>
    case Some(i) =>
      var pre, rest := CutAround(s, sep, i);
      SplitFirst(s, sep, i);
      JoinSplit(rest, sep);
      JoinCons(pre, Split(rest, sep), sep);
  }

  /** No piece contains the separator, and every piece is an infix. */
  lemma {:induction false} SplitPieces(s: string, sep: string)
    requires |sep| > 0
    ensures forall k | 0 <= k < |Split(s, sep)| ::
      !Contains(Split(s, sep)[k], sep) && Contains(s, Split(s, sep)[k])
    decreases |s|
  {
    var ps := Split(s, sep);
    match FindFirst(s, sep)
    case None =>
      assert OccursAt(s, s, 0);
    case Some(i) =>
      var rest := s[i + |sep|..];
      SplitFirst(s, sep, i);
      SplitPieces(rest, sep);
      FirstPiece(s, sep, i);
      assert OccursAt(s, rest, i + |sep|);
      PiecesCons(s, s[..i], rest, Split(rest, sep), sep);
  }

  /** The pieces of what follows the first cut are infixes of the whole. */
  lemma PiecesCons(s: string, p: string, rest: string, qs: seq<string>, sep: string)
    requires !Contains(p, sep) && Contains(s, p) && Contains(s, rest)
    requires forall k | 0 <= k < |qs| :: !Contains(qs[k], sep) && Contains(rest, qs[k])
    ensures forall k | 0 <= k < |[p] + qs| ::
      !Contains(([p] + qs)[k], sep) && Contains(s, ([p] + qs)[k])
  {
    forall k | 1 <= k < |[p] + qs|
      ensures !Contains(([p] + qs)[k], sep) && Contains(s, ([p] + qs)[k])
    {
      assert ([p] + qs)[k] == qs[k - 1];
      ContainsTrans(s, rest, qs[k - 1]);
    }
  }

  /** The text before the first occurrence is an infix without one. */
  lemma FirstPiece(s: string, sep: string, i: nat)
    requires |sep| > 0 && FindFirst(s, sep) == Some(i)
    ensures !Contains(s[..i], sep) && Contains(s, s[..i])
  {
    assert OccursAt(s, s[..i], 0);
    forall j | 0 <= j <= i - |sep| ensures !OccursAt(s[..i], sep, j) {
      assert !OccursAt(s, sep, j);
      assert s[..i][j..j + |sep|] == s[j..j + |sep|];
    }
  }

  /** Splitting on one character yields one piece more than there are
      occurrences of that character. */
  lemma {:induction false} SplitCount(s: string, c: char)
    ensures |Split(s, [c])| == multiset(s)[c] + 1
    decreases |s|
  {
    match FindFirst(s, [c])
    case None =>
      ContainsChar(s, c);
    case Some(i) =>
      var rest := s[i + 1..];
      SplitCount(rest, c);
      forall j | 0 <= j < i ensures s[..i][j] != c {
        assert !OccursAt(s, [c], j);
        assert s[j..j + 1] == [s[j]];
      }
      assert s[i..i + 1][0] == c;
      assert s == s[..i] + [c] + rest;
  }

  /** When `sep` occurs, the last piece is what follows an occurrence of
      `sep` at the end of the string, and it holds no further one. */
  lemma LastPiece(s: string, sep: string) returns (x: string)
    requires |sep| > 0 && Contains(s, sep)
    ensures s == x + sep + Last(Split(s, sep))
    ensures !Contains(Last(Split(s, sep)), sep)
  {
    x := LastPieceSplit(s, sep);
    SplitPieces(s, sep);
    assert Last(Split(s, sep)) == Split(s, sep)[|Split(s, sep)| - 1];
  }

  /** Whatever precedes the last piece ends with the separator. */
  lemma {:induction false} LastPieceSplit(s: string, sep: string) returns (x: string)
    requires |sep| > 0 && Contains(s, sep)
    ensures s == x + sep + Last(Split(s, sep))
    decreases |s|
  {
    var i := FindFirst(s, sep).value;
    var pre, rest := CutAround(s, sep, i);
    SplitFirst(s, sep, i);
    LastCons(pre, Split(rest, sep));
    if Contains(rest, sep) {
      var x' := LastPieceSplit(rest, sep);
      x := pre + sep + x';
      Assoc5(pre, sep, x', sep, Last(Split(rest, sep)));
    } else {
      x := pre;
    }
  }

  /** The first piece, and what Split goes on with. */
  lemma SplitFirst(s: string, sep: string, i: nat)
    requires |sep| > 0 && FindFirst(s, sep) == Some(i)
    ensures Split(s, sep) == [s[..i]] + Split(s[i + |sep|..], sep)
  {
  }

  /** A string cut around an occurrence. */
  lemma CutAround(s: string, sep: string, i: nat) returns (x: string, y: string)
    requires OccursAt(s, sep, i)
    ensures s == x + sep + y && x == s[..i] && y == s[i + |sep|..]
  {
    x, y := s[..i], s[i + |sep|..];
    Cut(s, i);
    Cut(s[i..], |sep|);
    assert s[i..][|sep|..] == y;
    Assoc3(x, sep, y);
  }

  lemma LastCons<T>(a: T, ps: seq<T>)
    requires |ps| > 0
    ensures Last([a] + ps) == Last(ps)
  {
  }

  lemma Assoc5<T>(a: seq<T>, b: seq<T>, c: seq<T>, d: seq<T>, e: seq<T>)
    ensures a + b + (c + d + e) == (a + b + c) + d + e
  {
  }

  /** `sep` cannot overlap itself: no proper suffix is a proper prefix. */
  predicate NoSelfOverlap(sep: string)
  {
    forall d | 0 < d < |sep| :: sep[d..] != sep[..|sep| - d]
  }

  /** Two occurrences closer than `|sep|` make `sep` overlap itself. */
  lemma SelfOverlap(s: string, sep: string, i: int, j: int)
    requires OccursAt(s, sep, i) && OccursAt(s, sep, j) && i < j < i + |sep|
    ensures sep[j - i..] == sep[..|sep| - (j - i)]
  {
    var d := j - i;
    forall k | 0 <= k < |sep| - d ensures sep[d..][k] == sep[k] {
      assert sep[d + k] == s[i + d + k];
      assert sep[k] == s[j + k];
    }
  }

  /** With a separator that cannot overlap itself, whatever precedes its last
      occurrence is dropped by `[-1]`. */
  lemma {:induction false} LastPieceAfter(x: string, sep: string, y: string)
    requires |sep| > 0 && NoSelfOverlap(sep) && !Contains(y, sep)
    ensures Last(Split(x + sep + y, sep)) == y
    decreases |x|
  {
    var s := x + sep + y;
    OccursMiddle(x, sep, y);
    var i := FindFirst(s, sep).value;
    var pre, rest := CutAround(s, sep, i);
    SplitFirst(s, sep, i);
    LastCons(pre, Split(rest, sep));
    if i == |x| {
      DropConcat(x, sep, y, |x|);
      assert sep[|sep|..] == [];
      assert FindFirst(y, sep) == None;
    } else {
      NoEarlyOverlap(s, sep, i, |x|);
      var x' := x[i + |sep|..];
      DropConcat(x, sep, y, i + |sep|);
      LastPieceAfter(x', sep, y);
    }
  }

  /** Two occurrences of a separator that cannot overlap itself are at
      least its length apart. */
  lemma NoEarlyOverlap(s: string, sep: string, i: int, j: int)
    requires OccursAt(s, sep, i) && OccursAt(s, sep, j) && i < j && NoSelfOverlap(sep)
    ensures i + |sep| <= j
  {
    if j < i + |sep| {
      SelfOverlap(s, sep, i, j);
      assert false;
    }
  }

  /** Dropping a prefix of the first part of a concatenation. */
  lemma DropConcat(x: string, sep: string, y: string, k: nat)
    requires k <= |x|
    ensures (x + sep + y)[k..] == x[k..] + sep + y
  {
  }

}
