/**
 * Tile labels (script.js, lines 97-101): a leaf's name is cut with
 * `name.split(/(?=[A-Z][^A-Z])/g)` and each piece becomes one line of text,
 * line `i` placed at `y = 8 + 9 * i`.
 */
module Labels {

  /** The character class `[A-Z]`. */
  predicate IsUpper(c: char) {
    'A' <= c <= 'Z'
  }

  /**
   * The look-ahead `(?=[A-Z][^A-Z])` matches at index `q` of `s`: an upper-case letter
   * there, followed by some character that is not one.
   */
  predicate BoundaryAt(s: string, q: int) {
    0 <= q && q + 1 < |s| && IsUpper(s[q]) && !IsUpper(s[q + 1])
  }

  /** The first index at or after `from` where the look-ahead matches, or `|s|` when none does. */
  function NextBoundary(s: string, from: nat): (q: nat)
    requires from <= |s|
    ensures from <= q <= |s|
    ensures q < |s| ==> BoundaryAt(s, q)
    ensures forall j :: from <= j < q ==> !BoundaryAt(s, j)
    decreases |s| - from
  {
    if from == |s| then |s|
    else if BoundaryAt(s, from) then from
    else NextBoundary(s, from + 1)
  }

  /**
   * String splitting with a zero-width separator: a match at the start of the
   * current piece is skipped, so each piece runs to the next match after its start.
   */
  function Pieces(s: string): (r: seq<string>)
    requires s != []
    ensures |r| >= 1
    decreases |s|
  {
    var q := NextBoundary(s, 1);
    if q == |s| then [s] else [s[..q]] + Pieces(s[q..])
  }

  /** `name.split(/(?=[A-Z][^A-Z])/g)`; the empty name splits into one empty piece. */
  function SplitLabel(name: string): (r: seq<string>)
    ensures |r| >= 1
    ensures name == [] ==> r == [""]
  {
    if name == [] then [""] else Pieces(name)
  }

  /** The pieces joined back together. */
  function Concat(ps: seq<string>): string {
    if ps == [] then [] else ps[0] + Concat(ps[1..])
  }

  /** The look-ahead reads only forwards, so on a suffix it matches where it matched on the whole. */
  lemma BoundaryInSuffix(s: string, q: nat, j: int)
    requires q <= |s|
    ensures BoundaryAt(s[q..], j) <==> 0 <= j && BoundaryAt(s, q + j)
  {
  }

  /** On a prefix it matches where it matched on the whole, except at the prefix's last character. */
  lemma BoundaryInPrefix(s: string, q: nat, j: int)
    requires q <= |s|
    ensures BoundaryAt(s[..q], j) <==> j + 1 < q && BoundaryAt(s, j)
  {
  }

  /** Joining the pieces gives back the name. */
  lemma {:induction false} SplitRoundTrip(name: string)
    ensures Concat(SplitLabel(name)) == name
  {
    if name != [] {
      PiecesRoundTrip(name);
    }
  }

  lemma {:induction false} PiecesRoundTrip(s: string)
    requires s != []
    ensures Concat(Pieces(s)) == s
    decreases |s|
  {
    var q := NextBoundary(s, 1);
    if q < |s| {
      PiecesRoundTrip(s[q..]);
      assert Pieces(s)[1..] == Pieces(s[q..]);
      assert s[..q] + s[q..] == s;
    }
  }

  /** A name that is not empty splits into pieces none of which is empty. */
  lemma {:induction false} SplitPiecesNonEmpty(name: string)
    requires name != []
    ensures forall i :: 0 <= i < |SplitLabel(name)| ==> SplitLabel(name)[i] != []
  {
    PiecesNonEmpty(name);
  }

  lemma {:induction false} PiecesNonEmpty(s: string)
    requires s != []
    ensures forall i :: 0 <= i < |Pieces(s)| ==> Pieces(s)[i] != []
    decreases |s|
  {
    var q := NextBoundary(s, 1);
    if q < |s| {
      PiecesNonEmpty(s[q..]);
    }
  }

  /** A piece that starts where the look-ahead matched still matches at its own start. */
  lemma FirstPieceKeepsBoundary(u: string)
    requires BoundaryAt(u, 0)
    ensures BoundaryAt(Pieces(u)[0], 0)
  {
    var q := NextBoundary(u, 1);
    assert !BoundaryAt(u, 1);
    assert q >= 2;
    BoundaryInPrefix(u, q, 0);
  }

  /**
   * Every piece after the first begins with an upper-case letter followed by a
   * character that is not upper-case.
   */
  lemma {:induction false} SplitPiecesStartAtBoundary(name: string)
    ensures forall i :: 0 < i < |SplitLabel(name)| ==> BoundaryAt(SplitLabel(name)[i], 0)
  {
    if name != [] {
      PiecesStartAtBoundary(name);
    }
  }

  lemma {:induction false} PiecesStartAtBoundary(s: string)
    requires s != []
    ensures forall i :: 0 < i < |Pieces(s)| ==> BoundaryAt(Pieces(s)[i], 0)
    decreases |s|
  {
    var q := NextBoundary(s, 1);
    if q < |s| {
      var u := s[q..];
      BoundaryInSuffix(s, q, 0);
      FirstPieceKeepsBoundary(u);
      PiecesStartAtBoundary(u);
      assert Pieces(s)[1..] == Pieces(u);
    }
  }

  /** No piece holds a match of the look-ahead anywhere but at its own start. */
  lemma {:induction false} SplitNoInteriorBoundary(name: string)
    ensures forall i, j :: 0 <= i < |SplitLabel(name)| && 0 < j ==> !BoundaryAt(SplitLabel(name)[i], j)
  {
    if name != [] {
      PiecesNoInteriorBoundary(name);
    }
  }

  lemma {:induction false} PiecesNoInteriorBoundary(s: string)
    requires s != []
    ensures forall i, j :: 0 <= i < |Pieces(s)| && 0 < j ==> !BoundaryAt(Pieces(s)[i], j)
    decreases |s|
  {
    var q := NextBoundary(s, 1);
    if q < |s| {
      PiecesNoInteriorBoundary(s[q..]);
      forall j | 0 < j
        ensures !BoundaryAt(s[..q], j)
      {
        BoundaryInPrefix(s, q, j);
      }
      assert Pieces(s)[0] == s[..q];
      assert Pieces(s)[1..] == Pieces(s[q..]);
    }
  }

  /**
   * The four properties above pin the split down: any list of pieces that joins
   * back to a non-empty name, has no empty piece, starts every later piece at a
   * match and holds no other match is the split of that name.
   */
  predicate IsCamelSplit(name: string, ps: seq<string>) {
    && Concat(ps) == name
    && (forall i :: 0 <= i < |ps| ==> ps[i] != [])
    && (forall i :: 0 < i < |ps| ==> BoundaryAt(ps[i], 0))
    && (forall i, j :: 0 <= i < |ps| && 0 < j < |ps[i]| ==> !BoundaryAt(ps[i], j))
  }

  lemma {:induction false} CamelSplitIsUnique(name: string, ps: seq<string>)
    requires name != []
    requires IsCamelSplit(name, ps)
    ensures ps == SplitLabel(name)
    decreases |name|
  {
    var q := NextBoundary(name, 1);
    var p0 := ps[0];
    assert name == p0 + Concat(ps[1..]);
    assert name[..|p0|] == p0;
    // No match inside the first piece: the split's first cut is not before |p0|.
    forall j | 1 <= j < |p0|
      ensures !BoundaryAt(name, j)
    {
      BoundaryInPrefix(name, |p0|, j);
    }
    if |ps| == 1 {
      assert Concat(ps[1..]) == [];
      assert p0 == name;
      assert q == |name|;
    } else {
      var rest := ps[1..];
      var tail := Concat(rest);
      assert Concat(rest) == ps[1] + Concat(ps[2..]);
      assert BoundaryAt(ps[1], 0);
      assert name[|p0|..] == tail;
      BoundaryInSuffix(name, |p0|, 0);
      assert BoundaryAt(tail, 0);
      assert q == |p0|;
      assert IsCamelSplit(tail, rest) by {
        forall i | 0 <= i < |rest| ensures rest[i] != [] { assert rest[i] == ps[i + 1]; }
        forall i | 0 < i < |rest| ensures BoundaryAt(rest[i], 0) { assert rest[i] == ps[i + 1]; }
        forall i, j | 0 <= i < |rest| && 0 < j < |rest[i]| ensures !BoundaryAt(rest[i], j) { assert rest[i] == ps[i + 1]; }
      }
      CamelSplitIsUnique(tail, rest);
    }
  }

  /** One line of a tile's label: its text and its vertical offset inside the tile. */
  datatype Line = Line(text: string, y: int)

  /** The offset of line `i`: 8 units down, then 9 units per line. */
  function LineY(i: nat): int {
    8 + 9 * i
  }

  /** The label's lines: one per piece of the split, stacked 9 units apart from 8 down. */
  function LabelLines(name: string): (lines: seq<Line>)
    ensures |lines| == |SplitLabel(name)| >= 1
    ensures forall i :: 0 <= i < |lines| ==> lines[i].text == SplitLabel(name)[i]
    ensures lines[0].y == 8
    ensures forall i :: 0 < i < |lines| ==> lines[i].y == lines[i - 1].y + 9
    ensures forall i, j :: 0 <= i < j < |lines| ==> lines[i].y < lines[j].y
  {
    var ps := SplitLabel(name);
    var lines := seq(|ps|, i requires 0 <= i < |ps| => Line(ps[i], LineY(i)));
    assert forall i :: 0 <= i < |lines| ==> lines[i].y == 8 + 9 * i;
    lines
  }
}
