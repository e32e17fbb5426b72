/** The string helpers that search in a loop. A string is cut into pieces at a separator: splitting lists
    the pieces, replacing puts something else between them. */
module Strings {
  import opened Bytes

  predicate OccursAt(s: string, pattern: string, i: nat) {
    i + |pattern| <= |s| && s[i..i + |pattern|] == pattern
  }

  /** `string::find`: the first occurrence at or behind `from`. */
  function Find(s: string, pattern: string, from: nat): (r: Option<nat>)
    ensures r.Some? ==> from <= r.value && OccursAt(s, pattern, r.value)
    ensures r.Some? ==> forall i :: from <= i < r.value ==> !OccursAt(s, pattern, i)
    ensures r.None? ==> forall i :: from <= i ==> !OccursAt(s, pattern, i)
    decreases |s| - from
  {
    if OccursAt(s, pattern, from) then Some(from)
    else if from >= |s| then None
    else Find(s, pattern, from + 1)
  }

  /** What lies before, between and behind the separators, cutting from the left. */
  function Pieces(s: string, sep: string): (r: seq<string>)
    requires sep != []
    ensures r != []
    decreases |s|
  {
    match Find(s, sep, 0)
    case None => [s]
    case Some(i) => [s[..i]] + Pieces(s[i + |sep|..], sep)
  }

  function Join(pieces: seq<string>, sep: string): string {
    if pieces == [] then []
    else if |pieces| == 1 then pieces[0]
    else pieces[0] + sep + Join(pieces[1..], sep)
  }

  /** Searching behind a position is searching the rest. */
  lemma {:induction false} FindInRest(front: string, rest: string, pattern: string, k: nat)
    requires pattern != []
    ensures Find(front + rest, pattern, |front| + k)
         == match Find(rest, pattern, k) case None => None case Some(i) => Some(|front| + i)
    decreases |rest| - k
  {
    hide OccursAt;
    PastEnd(front + rest, pattern, |front| + k);
    PastEnd(rest, pattern, k);
    OccursInRest(front, rest, pattern, k);
    if !OccursAt(rest, pattern, k) && k < |rest| {
      FindInRest(front, rest, pattern, k + 1);
    }
  }

  lemma PastEnd(s: string, pattern: string, k: nat)
    requires pattern != []
    ensures k >= |s| ==> !OccursAt(s, pattern, k)
  {
  }

  lemma OccursInRest(front: string, rest: string, pattern: string, k: nat)
    ensures OccursAt(front + rest, pattern, |front| + k) <==> OccursAt(rest, pattern, k)
  {
    if k + |pattern| <= |rest| {
      assert (front + rest)[|front| + k..|front| + k + |pattern|] == rest[k..k + |pattern|];
    }
  }

  /** One cut. */
  lemma PieceStep(s: string, sep: string)
    requires sep != []
    ensures match Find(s, sep, 0)
            case None => Pieces(s, sep) == [s]
            case Some(i) => i + |sep| <= |s| && Pieces(s, sep) == [s[..i]] + Pieces(s[i + |sep|..], sep)
  {
    hide Find, OccursAt;
    if i :| Find(s, sep, 0) == Some(i) {
      OccurrenceInside(s, sep, i);
    }
  }

  lemma OccurrenceInside(s: string, sep: string, i: nat)
    requires OccursAt(s, sep, i)
    ensures i + |sep| <= |s|
  {
  }

  lemma JoinStep(piece: string, pieces: seq<string>, sep: string)
    requires pieces != []
    ensures Join([piece] + pieces, sep) == piece + sep + Join(pieces, sep)
  {
    assert ([piece] + pieces)[1..] == pieces;
  }

  /** Joining the pieces with the separator gives the string back. */
  lemma {:induction false} PiecesJoin(s: string, sep: string)
    requires sep != []
    ensures Join(Pieces(s, sep), sep) == s
    decreases |s|
  {
    var found := Find(s, sep, 0);
    if found.Some? {
      var rest := s[found.value + |sep|..];
      PiecesJoin(rest, sep);
      assert Pieces(s, sep)[1..] == Pieces(rest, sep);
      assert s == s[..found.value] + sep + rest;
    }
  }

  /** No piece contains the separator. */
  lemma {:induction false} PiecesAreFree(s: string, sep: string, k: nat, i: nat)
    requires sep != [] && k < |Pieces(s, sep)|
    ensures !OccursAt(Pieces(s, sep)[k], sep, i)
    decreases |s|
  {
    hide Find;
    var found := Find(s, sep, 0);
    if found.Some? {
      if k > 0 {
        PiecesAreFree(s[found.value + |sep|..], sep, k - 1, i);
      } else if i + |sep| <= found.value {
        assert s[..found.value][i..i + |sep|] == s[i..i + |sep|];
        assert !OccursAt(s, sep, i);
      }
    }
  }

  /** `StringSplit` leaves out an empty last piece. */
  function Split(s: string, sep: string): seq<string>
    requires sep != []
  {
    var p := Pieces(s, sep);
    if p[|p| - 1] == [] then p[..|p| - 1] else p
  }

  method StringSplit(src: string, split: string) returns (dest: seq<string>)
    requires split != []
    ensures dest == Split(src, split)
  {
    hide Find, Pieces, OccursAt;
    dest := [];
    var oldPos := 0;
    ghost var done, rest := "", src;
    assert done + rest == src && dest + Pieces(rest, split) == Pieces(src, split);
    FindInRest(done, rest, split, 0);
    var newPos := Find(src, split, oldPos);
    while newPos.Some?
      invariant src == done + rest && oldPos == |done|
      invariant newPos == match Find(rest, split, 0) case None => None case Some(i) => Some(oldPos + i)
      invariant Pieces(src, split) == dest + Pieces(rest, split)
      decreases |rest|
    {
      PieceStep(rest, split);
      ghost var i := newPos.value - oldPos;
      ghost var next := rest[i + |split|..];
      assert src[oldPos..newPos.value] == rest[..i];
      assert dest + ([rest[..i]] + Pieces(next, split)) == dest + [rest[..i]] + Pieces(next, split);
      dest := dest + [src[oldPos..newPos.value]];
      oldPos := newPos.value + |split|;
      assert done + rest == (done + rest[..i + |split|]) + next;
      done, rest := done + rest[..i + |split|], next;
      FindInRest(done, rest, split, 0);
      newPos := Find(src, split, oldPos);
    }
    PieceStep(rest, split);
    assert src[oldPos..] == rest && (dest + [rest])[..|dest|] == dest;
    if oldPos < |src| {
      dest := dest + [src[oldPos..]];
    }
  }

  /** The separated string is recovered from its parts exactly when it is empty or something lies behind the
      last cut. */
  lemma SplitJoin(s: string, sep: string)
    requires sep != []
    ensures Join(Split(s, sep), sep) == s <==> s == [] || Pieces(s, sep)[|Pieces(s, sep)| - 1] != []
  {
    PiecesJoin(s, sep);
    var p := Pieces(s, sep);
    if p[|p| - 1] == [] && |p| > 1 {
      JoinShorter(p[..|p| - 1], sep);
      assert p[..|p| - 1] + [[]] == p;
    }
  }

  predicate EndsIn(s: string, sep: string) {
    |sep| <= |s| && s[|s| - |sep|..] == sep
  }

  /** No end of the separator is also a beginning of it, so that two separators never overlap. */
  predicate Unbordered(sep: string) {
    forall n :: 0 < n < |sep| ==> sep[..n] != sep[|sep| - n..]
  }

  /** A separator that overlaps the one at the end begins as it ends. */
  lemma OverlapIsBorder(s: string, sep: string, i: nat)
    requires OccursAt(s, sep, i) && EndsIn(s, sep)
    ensures var n := i + 2 * |sep| - |s|; 0 < n < |sep| ==> sep[..n] == sep[|sep| - n..]
  {
    var n := i + 2 * |sep| - |s|;
    if 0 < n < |sep| {
      assert s[i..i + |sep|][|sep| - n..] == s[i + |sep| - n..i + |sep|];
      assert s[|s| - |sep|..][..n] == s[|s| - |sep|..|s| - |sep| + n];
    }
  }

  lemma NoBorder(sep: string, n: int)
    requires Unbordered(sep)
    ensures 0 < n < |sep| ==> sep[..n] != sep[|sep| - n..]
  {
  }

  lemma NothingToCut(sep: string)
    requires sep != []
    ensures Pieces([], sep) == [[]]
  {
  }

  lemma {:induction false} EmptyLastPiece(s: string, sep: string)
    requires sep != []
    ensures Pieces(s, sep)[|Pieces(s, sep)| - 1] == [] && s != [] ==> EndsIn(s, sep)
    ensures Unbordered(sep) && EndsIn(s, sep) ==> Pieces(s, sep)[|Pieces(s, sep)| - 1] == []
    decreases |s|
  {
    hide Find, Unbordered, Pieces;
    PieceStep(s, sep);
    match Find(s, sep, 0)
    case None =>
      assert EndsIn(s, sep) ==> OccursAt(s, sep, |s| - |sep|);
    case Some(i) =>
      var rest := s[i + |sep|..];
      EmptyLastPiece(rest, sep);
      NothingToCut(sep);
      assert Pieces(s, sep)[|Pieces(s, sep)| - 1] == Pieces(rest, sep)[|Pieces(rest, sep)| - 1];
      if Unbordered(sep) && EndsIn(s, sep) {
        OverlapIsBorder(s, sep, i);
        NoBorder(sep, i + 2 * |sep| - |s|);
        if rest != [] {
          assert rest[|rest| - |sep|..] == s[|s| - |sep|..];
        }
      }
      if EndsIn(rest, sep) {
        assert s[|s| - |sep|..] == rest[|rest| - |sep|..];
      } else if rest == [] {
        assert s[|s| - |sep|..] == s[i..i + |sep|];
      }
  }

  /** Being recovered is being empty or not ending in the separator: for all strings exactly when no end of
      the separator is also a beginning of it, as with a single character. */
  lemma RecoveredWhen(sep: string)
    requires sep != []
    ensures Unbordered(sep) <==> forall s :: RecoveredUnlessEnding(s, sep)
  {
    hide Pieces, Split, Join;
    if Unbordered(sep) {
      forall s ensures RecoveredUnlessEnding(s, sep) {
        SplitJoin(s, sep);
        EmptyLastPiece(s, sep);
      }
    } else {
      var n :| 0 < n < |sep| && sep[..n] == sep[|sep| - n..];
      Overlapping(sep, n);
    }
  }

  predicate RecoveredUnlessEnding(s: string, sep: string)
    requires sep != []
  {
    Join(Split(s, sep), sep) == s <==> s == [] || !EndsIn(s, sep)
  }

  /** Two overlapping separators: the first is cut out, and the rest of the second lies behind the cut. */
  lemma Overlapping(sep: string, n: nat)
    requires 0 < n < |sep| && sep[..n] == sep[|sep| - n..]
    ensures !RecoveredUnlessEnding(sep + sep[n..], sep)
  {
    hide Pieces, Split, Join, Find;
    var s := sep + sep[n..];
    assert s[|s| - |sep|..] == sep[|sep| - n..] + sep[n..] == sep;
    assert OccursAt(s, sep, 0);
    PieceStep(s, sep);
    PieceStep(sep[n..], sep);
    assert s[|sep|..] == sep[n..];
    SplitJoin(s, sep);
  }

  lemma {:induction false} JoinShorter(pieces: seq<string>, sep: string)
    requires pieces != []
    ensures Join(pieces + [[]], sep) == Join(pieces, sep) + sep
  {
    var more := pieces + [[]];
    if |pieces| == 1 {
      assert more[1..] == [[]];
    } else {
      assert more[1..] == pieces[1..] + [[]];
      JoinShorter(pieces[1..], sep);
    }
  }

  /** `StringReplace`; an empty pattern would be found for ever. */
  method StringReplace(src: string, from: string, to: string) returns (context: string)
    requires from != []
    ensures context == Join(Pieces(src, from), to)
  {
    hide Find, Pieces, OccursAt, Join;
    context := src;
    var lookHere := 0;
    ghost var done, rest := "", src;
    assert done + rest == src && done + Join(Pieces(src, from), to) == Join(Pieces(src, from), to);
    FindInRest(done, rest, from, 0);
    var found := Find(context, from, lookHere);
    while found.Some?
      invariant context == done + rest && lookHere == |done|
      invariant found == match Find(rest, from, 0) case None => None case Some(i) => Some(lookHere + i)
      invariant Join(Pieces(src, from), to) == done + Join(Pieces(rest, from), to)
      decreases |rest|
    {
      PieceStep(rest, from);
      var at := found.value;
      ghost var i := at - lookHere;
      ghost var piece, next := rest[..i], rest[i + |from|..];
      JoinStep(piece, Pieces(next, from), to);
      assert context[..at] == done + piece && context[at + |from|..] == next;
      context := context[..at] + to + context[at + |from|..];
      lookHere := at + |to|;
      assert done + (piece + to + Join(Pieces(next, from), to)) == (done + piece + to) + Join(Pieces(next, from), to);
      done, rest := done + piece + to, next;
      FindInRest(done, rest, from, 0);
      found := Find(context, from, lookHere);
    }
    PieceStep(rest, from);
    JoinOne(rest, to);
  }

  lemma JoinOne(piece: string, sep: string)
    ensures Join([piece], sep) == piece
  {
  }

  /** Replacing something by itself changes nothing. */
  lemma ReplaceBySelf(s: string, from: string)
    requires from != []
    ensures Join(Pieces(s, from), from) == s
  {
    PiecesJoin(s, from);
  }
}
