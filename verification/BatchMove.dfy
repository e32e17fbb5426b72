/** Moving a batch of files after a preflight. A path is the list of its components; the first one of
    an absolute path is "/", and the empty list is the empty path. */
module BatchMove {
  import opened Bytes

  type Path = seq<string>

  datatype Node = Node(isDirectory: bool, writable: bool, content: seq<byte>)

  type Tree = map<Path, Node>

  datatype Move = Move(source: Path, destination: Path)

  datatype Error =
    | EmptySource
    | SourceEqualsDestination(path: Path)
    | DuplicateSource(path: Path)
    | SourceParentIsNotWritable(path: Path)
    | DuplicateDestination(path: Path)
    | SourceDoesNotExist(path: Path)
    | SourceIsNotReachable(path: Path)
    | DestinationAlreadyExists(path: Path)
    | DestinationParentDoesNotExist(path: Path)
    | DestinationParentIsNotDirectory(path: Path)
    | DestinationParentIsNotWritable(path: Path)
    | MoveWouldPlaceDirectoryInsideItself(path: Path, into: Path)
    | MoveFailed(path: Path, into: Path)

  const ROOT: Path := ["/"]

  function Parent(p: Path): Path {
    if |p| <= 1 then p else p[..|p| - 1]
  }

  /** The tree of a file system: below the root, every node lies in a directory. */
  predicate Proper(t: Tree) {
    && ROOT in t && t[ROOT].isDirectory
    && forall p :: p in t ==> p != [] && (p != ROOT ==> |p| > 1 && Parent(p) in t && t[Parent(p)].isDirectory)
  }

  lemma {:induction false} AncestorsExist(t: Tree, p: Path, q: Path)
    requires Proper(t) && p in t && q <= p && q != []
    ensures q in t && (q != p ==> t[q].isDirectory)
    decreases |p|
  {
    if q != p {
      AncestorsExist(t, Parent(p), q);
    }
  }

  lemma {:induction false} RootAbove(t: Tree, p: Path)
    requires Proper(t) && p in t
    ensures ROOT <= p
    decreases |p|
  {
    if p != ROOT {
      RootAbove(t, Parent(p));
    }
  }

  predicate Writable(t: Tree, p: Path) {
    p in t && t[p].writable
  }

  // ---------------------------------------------------------------- one move

  /** When the file system carries out a move, its own failures aside. */
  predicate CanMove(t: Tree, m: Move) {
    && m.source in t && |m.source| > 1 && Writable(t, Parent(m.source))
    && m.destination !in t && Writable(t, Parent(m.destination)) && t[Parent(m.destination)].isDirectory
    && !(m.source <= m.destination)
  }

  /** Where a move takes the node at `p`. */
  function Moved(p: Path, m: Move): Path {
    if m.source <= p then m.destination + p[|m.source|..] else p
  }

  function Origin(q: Path, m: Move): Path {
    if m.destination <= q then m.source + q[|m.destination|..] else q
  }

  /** The tree with the whole subtree at the source taken to the destination. */
  function Renamed(t: Tree, m: Move): Tree {
    map q | q in (set p | p in t :: Moved(p, m)) && Origin(q, m) in t :: t[Origin(q, m)]
  }

  /** Everything keeps its content at its new place, and there is nothing else. */
  lemma RenamedMeaning(t: Tree, m: Move)
    requires Proper(t) && CanMove(t, m)
    ensures forall p :: p in t ==> Moved(p, m) in Renamed(t, m) && Renamed(t, m)[Moved(p, m)] == t[p]
    ensures forall q :: q in Renamed(t, m) ==> exists p :: p in t && q == Moved(p, m)
  {
    forall p | p in t ensures Origin(Moved(p, m), m) == p {
      OriginOfMoved(t, m, p);
    }
  }

  lemma OriginOfMoved(t: Tree, m: Move, p: Path)
    requires Proper(t) && CanMove(t, m) && p in t
    ensures Origin(Moved(p, m), m) == p
  {
    hide Proper;
    if m.source <= p {
      BehindFront(m.destination, p[|m.source|..]);
      assert m.source + p[|m.source|..] == p;
    } else if m.destination <= p {
      AncestorsExist(t, p, m.destination);
    }
  }

  lemma BehindFront(front: Path, back: Path)
    ensures front <= front + back && (front + back)[|front|..] == back
  {
  }

  lemma MovedThere(t: Tree, m: Move, p: Path)
    requires Proper(t) && CanMove(t, m) && p in t
    ensures Moved(p, m) in Renamed(t, m) && Renamed(t, m)[Moved(p, m)] == t[p]
  {
    hide Renamed, Moved;
    RenamedMeaning(t, m);
  }

  lemma CameFrom(t: Tree, m: Move, q: Path) returns (p: Path)
    requires Proper(t) && CanMove(t, m) && q in Renamed(t, m)
    ensures p in t && q == Moved(p, m)
  {
    hide Renamed, Moved;
    RenamedMeaning(t, m);
    p :| p in t && q == Moved(p, m);
  }

  lemma RenamedIsProper(t: Tree, m: Move)
    requires Proper(t) && CanMove(t, m)
    ensures Proper(Renamed(t, m))
  {
    hide Renamed;
    var r := Renamed(t, m);
    RenamedMeaning(t, m);
    assert Moved(ROOT, m) == ROOT;
    forall q | q in r ensures q != [] && (q != ROOT ==> |q| > 1 && Parent(q) in r && r[Parent(q)].isDirectory) {
      var p :| p in t && q == Moved(p, m);
      ParentMoves(t, m, p);
    }
  }

  lemma ParentMoves(t: Tree, m: Move, p: Path)
    requires Proper(t) && CanMove(t, m) && p in t
    ensures var q, r := Moved(p, m), Renamed(t, m);
            q != [] && (q != ROOT ==> |q| > 1 && Parent(q) in r && r[Parent(q)].isDirectory)
  {
    hide Renamed;
    RenamedMeaning(t, m);
    if p == m.source {
      StaysPut(Parent(m.destination), m);
    } else if p != ROOT {
      assert Parent(p) in t;
      ParentFollows(p, m);
    }
  }

  /** The destination's directory is not moved. */
  lemma StaysPut(above: Path, m: Move)
    requires above == Parent(m.destination) && !(m.source <= m.destination)
    ensures Moved(above, m) == above && Moved(m.source, m) == m.destination
  {
  }

  lemma ParentFollows(p: Path, m: Move)
    requires |p| > 1 && p != m.source && m.source != [] && m.destination != []
    ensures |Moved(p, m)| > 1 && Moved(Parent(p), m) == Parent(Moved(p, m))
  {
  }

  // ---------------------------------------------------------------- preflight

  /** The checks for one move, in order. */
  function Check(t: Tree, reachable: Path -> bool, m: Move, seenSources: set<Path>,
      seenDestinations: set<Path>): Option<Error> {
    var s, d := m.source, m.destination;
    if s == [] then Some(EmptySource)
    else if s == d then Some(SourceEqualsDestination(s))
    else if s in seenSources then Some(DuplicateSource(s))
    else if !Writable(t, Parent(s)) then Some(SourceParentIsNotWritable(Parent(s)))
    else if d in seenDestinations then Some(DuplicateDestination(d))
    else if s !in t then Some(SourceDoesNotExist(s))
    else if !reachable(s) then Some(SourceIsNotReachable(s))
    else if d in t then Some(DestinationAlreadyExists(d))
    else if Parent(d) !in t then Some(DestinationParentDoesNotExist(Parent(d)))
    else if !t[Parent(d)].isDirectory then Some(DestinationParentIsNotDirectory(Parent(d)))
    else if !Writable(t, Parent(d)) then Some(DestinationParentIsNotWritable(Parent(d)))
    else if t[s].isDirectory && s <= d then Some(MoveWouldPlaceDirectoryInsideItself(s, d))
    else None
  }

  function Sources(moves: seq<Move>): set<Path> {
    if moves == [] then {} else Sources(moves[..|moves| - 1]) + {moves[|moves| - 1].source}
  }

  function Destinations(moves: seq<Move>): set<Path> {
    if moves == [] then {} else Destinations(moves[..|moves| - 1]) + {moves[|moves| - 1].destination}
  }

  /** The first error from move `i` on. */
  function Preflight(t: Tree, reachable: Path -> bool, moves: seq<Move>, i: nat): Option<Error>
    requires i <= |moves|
    decreases |moves| - i
  {
    if i == |moves| then None
    else
      var e := Check(t, reachable, moves[i], Sources(moves[..i]), Destinations(moves[..i]));
      if e.Some? then e else Preflight(t, reachable, moves, i + 1)
  }

  /** What the tree has to offer for one move. */
  predicate Admissible(t: Tree, reachable: Path -> bool, m: Move) {
    reachable(m.source) && CanMove(t, m)
  }

  predicate Distinct(moves: seq<Move>) {
    forall i, j :: 0 <= i < j < |moves| ==>
      moves[i].source != moves[j].source && moves[i].destination != moves[j].destination
  }

  predicate Passes(t: Tree, reachable: Path -> bool, moves: seq<Move>) {
    Preflight(t, reachable, moves, 0) == None
  }

  lemma CheckMeaning(t: Tree, reachable: Path -> bool, m: Move, sources: set<Path>, destinations: set<Path>)
    requires Proper(t)
    ensures Check(t, reachable, m, sources, destinations) == None <==>
              Admissible(t, reachable, m) && m.source !in sources && m.destination !in destinations
  {
    if m.source in t && Parent(m.destination) in t && m.destination !in t {
      RootAbove(t, Parent(m.destination));
      if m.source <= m.destination && m.source != m.destination {
        AncestorsExist(t, Parent(m.destination), m.source);
      }
    }
  }

  /** The preflight passes exactly when every move could be made alone and nothing is named twice; the
      order of the moves does not matter. */
  lemma {:induction false} PreflightMeaning(t: Tree, reachable: Path -> bool, moves: seq<Move>, i: nat)
    requires Proper(t) && i <= |moves|
    ensures Preflight(t, reachable, moves, i) == None <==>
              && (forall j :: i <= j < |moves| ==> Admissible(t, reachable, moves[j]))
              && (forall j, k :: 0 <= k < j < |moves| && i <= j ==>
                    moves[k].source != moves[j].source && moves[k].destination != moves[j].destination)
    decreases |moves| - i
  {
    hide Check, Admissible, Sources, Destinations, Proper;
    if i < |moves| {
      PreflightMeaning(t, reachable, moves, i + 1);
      CheckMeaning(t, reachable, moves[i], Sources(moves[..i]), Destinations(moves[..i]));
      FirstUses(moves, i);
    }
  }

  lemma {:induction false} InSources(moves: seq<Move>, p: Path)
    ensures p in Sources(moves) <==> exists k :: 0 <= k < |moves| && moves[k].source == p
    ensures p in Destinations(moves) <==> exists k :: 0 <= k < |moves| && moves[k].destination == p
  {
    if moves != [] {
      var front := moves[..|moves| - 1];
      InSources(front, p);
      assert forall k :: 0 <= k < |front| ==> front[k] == moves[k];
    }
  }

  lemma FirstUses(moves: seq<Move>, i: nat)
    requires i < |moves|
    ensures moves[i].source !in Sources(moves[..i]) <==> forall k :: 0 <= k < i ==> moves[k].source != moves[i].source
    ensures moves[i].destination !in Destinations(moves[..i]) <==>
      forall k :: 0 <= k < i ==> moves[k].destination != moves[i].destination
  {
    hide Sources, Destinations;
    InSources(moves[..i], moves[i].source);
    InSources(moves[..i], moves[i].destination);
    assert forall k :: 0 <= k < i ==> moves[..i][k] == moves[k];
  }

  /** What can be wrong with move `i`, in the order in which the preflight asks. */
  predicate Wrong(k: nat, t: Tree, reachable: Path -> bool, moves: seq<Move>, i: nat)
    requires i < |moves|
  {
    var s, d := moves[i].source, moves[i].destination;
    match k
    case 0 => s == []
    case 1 => s == d
    case 2 => exists j :: 0 <= j < i && moves[j].source == s
    case 3 => Parent(s) !in t || !t[Parent(s)].writable
    case 4 => exists j :: 0 <= j < i && moves[j].destination == d
    case 5 => s !in t
    case 6 => !reachable(s)
    case 7 => d in t
    case 8 => Parent(d) !in t
    case 9 => Parent(d) in t && !t[Parent(d)].isDirectory
    case 10 => Parent(d) in t && !t[Parent(d)].writable
    case 11 => s in t && t[s].isDirectory && s <= d
    case _ => false
  }

  /** The error that says so. */
  function Complaint(k: nat, m: Move): Error {
    match k
    case 0 => EmptySource
    case 1 => SourceEqualsDestination(m.source)
    case 2 => DuplicateSource(m.source)
    case 3 => SourceParentIsNotWritable(Parent(m.source))
    case 4 => DuplicateDestination(m.destination)
    case 5 => SourceDoesNotExist(m.source)
    case 6 => SourceIsNotReachable(m.source)
    case 7 => DestinationAlreadyExists(m.destination)
    case 8 => DestinationParentDoesNotExist(Parent(m.destination))
    case 9 => DestinationParentIsNotDirectory(Parent(m.destination))
    case 10 => DestinationParentIsNotWritable(Parent(m.destination))
    case _ => MoveWouldPlaceDirectoryInsideItself(m.source, m.destination)
  }

  predicate AllRight(t: Tree, reachable: Path -> bool, moves: seq<Move>, i: nat)
    requires i < |moves|
  {
    forall k :: 0 <= k < 12 ==> !Wrong(k, t, reachable, moves, i)
  }

  lemma CheckFinds(t: Tree, reachable: Path -> bool, moves: seq<Move>, i: nat, k: nat)
    requires i < |moves| && k <= 12 && forall j :: 0 <= j < k ==> !Wrong(j, t, reachable, moves, i)
    requires k < 12 ==> Wrong(k, t, reachable, moves, i)
    ensures Check(t, reachable, moves[i], Sources(moves[..i]), Destinations(moves[..i]))
         == if k == 12 then None else Some(Complaint(k, moves[i]))
  {
    hide Sources, Destinations, Parent;
    FirstUses(moves, i);
    assert k > 0 ==> !Wrong(0, t, reachable, moves, i);
    assert k > 1 ==> !Wrong(1, t, reachable, moves, i);
    assert k > 2 ==> !Wrong(2, t, reachable, moves, i);
    assert k > 3 ==> !Wrong(3, t, reachable, moves, i);
    assert k > 4 ==> !Wrong(4, t, reachable, moves, i);
    assert k > 5 ==> !Wrong(5, t, reachable, moves, i);
    assert k > 6 ==> !Wrong(6, t, reachable, moves, i);
    assert k > 7 ==> !Wrong(7, t, reachable, moves, i);
    assert k > 8 ==> !Wrong(8, t, reachable, moves, i);
    assert k > 9 ==> !Wrong(9, t, reachable, moves, i);
    assert k > 10 ==> !Wrong(10, t, reachable, moves, i);
    assert k > 11 ==> !Wrong(11, t, reachable, moves, i);
  }

  /** The preflight reports the first thing wrong with the first move that has anything wrong with it, and nothing
      when there is no such move. */
  lemma {:induction false} FirstWrongIsReported(t: Tree, reachable: Path -> bool, moves: seq<Move>, from: nat, i: nat,
                                                k: nat)
    requires from <= i <= |moves| && forall j :: from <= j < i ==> AllRight(t, reachable, moves, j)
    requires i < |moves| ==>
      k < 12 && Wrong(k, t, reachable, moves, i) && forall j :: 0 <= j < k ==> !Wrong(j, t, reachable, moves, i)
    ensures Preflight(t, reachable, moves, from) == if i == |moves| then None else Some(Complaint(k, moves[i]))
    decreases i - from
  {
    hide Check, Wrong, Complaint, Sources, Destinations;
    if from < i {
      assert AllRight(t, reachable, moves, from);
      CheckFinds(t, reachable, moves, from, 12);
      FirstWrongIsReported(t, reachable, moves, from + 1, i, k);
    } else if i < |moves| {
      CheckFinds(t, reachable, moves, i, k);
    }
  }

  predicate AllAdmissible(t: Tree, moves: seq<Move>) {
    forall i :: 0 <= i < |moves| ==> CanMove(t, moves[i])
  }

  lemma PassedMeaning(t: Tree, reachable: Path -> bool, moves: seq<Move>)
    requires Proper(t) && Passes(t, reachable, moves)
    ensures AllAdmissible(t, moves) && Distinct(moves)
  {
    hide Preflight;
    PreflightMeaning(t, reachable, moves, 0);
  }

  // ---------------------------------------------------------------- the moves one by one

  /** The tree left by the moves from `k` on, and the number of the move that failed, or of all. */
  function Executed(t: Tree, moves: seq<Move>, k: nat): (r: (Tree, nat))
    requires k <= |moves|
    ensures k <= r.1 <= |moves|
    decreases |moves| - k
  {
    if k == |moves| || !CanMove(t, moves[k]) then (t, k) else Executed(Renamed(t, moves[k]), moves, k + 1)
  }

  predicate Above(p: Path, q: Path) {
    p < q
  }

  /** An earlier source lies above this move's source or destination. */
  predicate Blocked(moves: seq<Move>, j: nat)
    requires j < |moves|
  {
    exists i :: 0 <= i < j && Hides(moves[i], moves[j])
  }

  predicate Hides(a: Move, b: Move) {
    Above(a.source, b.source) || Above(a.source, b.destination)
  }

  predicate Taken(moves: seq<Move>, k: nat, p: Path)
    requires k <= |moves|
  {
    exists i :: 0 <= i < k && moves[i].source <= p
  }

  predicate Landed(moves: seq<Move>, k: nat, p: Path)
    requires k <= |moves|
  {
    exists i :: 0 <= i < k && moves[i].destination <= p
  }

  /** The tree after `k` moves: what no source covers is as it was, everything else lies at or below a
      destination. */
  predicate MovedSoFar(t0: Tree, moves: seq<Move>, k: nat, t: Tree)
    requires k <= |moves|
  {
    && Proper(t)
    && (forall p :: p in t0 && !Taken(moves, k, p) ==> p in t && t[p] == t0[p])
    && (forall q :: q in t ==> (q in t0 && !Taken(moves, k, q)) || Landed(moves, k, q))
  }

  /** Nothing of the original tree is at or below a destination. */
  lemma NoneLanded(t0: Tree, moves: seq<Move>, k: nat, p: Path)
    requires Proper(t0) && AllAdmissible(t0, moves) && k <= |moves| && p in t0
    ensures !Landed(moves, k, p)
  {
    forall i | 0 <= i < k ensures !(moves[i].destination <= p) {
      DestinationIsNew(t0, moves[i], p);
    }
  }

  lemma DestinationIsNew(t0: Tree, m: Move, p: Path)
    requires Proper(t0) && CanMove(t0, m) && p in t0
    ensures !(m.destination <= p)
  {
    if m.destination <= p {
      assert m.destination != [];
      AncestorsExist(t0, p, m.destination);
    }
  }

  lemma MoveKeeps(t0: Tree, moves: seq<Move>, k: nat, t: Tree)
    requires Proper(t0) && AllAdmissible(t0, moves) && k < |moves| && MovedSoFar(t0, moves, k, t)
      && CanMove(t, moves[k])
    ensures MovedSoFar(t0, moves, k + 1, Renamed(t, moves[k]))
  {
    hide Renamed, CanMove, Moved, Taken, Landed, Proper, AllAdmissible;
    var m, r := moves[k], Renamed(t, moves[k]);
    RenamedIsProper(t, m);
    forall p | p in t0 && !Taken(moves, k + 1, p) ensures p in r && r[p] == t0[p] {
      NotTaken(moves, k, p);
      MovedThere(t, m, p);
    }
    forall q | q in r ensures (q in t0 && !Taken(moves, k + 1, q)) || Landed(moves, k + 1, q) {
      var p := CameFrom(t, m, q);
      LandsOrStays(t0, moves, k, p);
    }
  }

  lemma NotTaken(moves: seq<Move>, k: nat, p: Path)
    requires k < |moves| && !Taken(moves, k + 1, p)
    ensures !Taken(moves, k, p) && Moved(p, moves[k]) == p
  {
  }

  lemma LandsOrStays(t0: Tree, moves: seq<Move>, k: nat, p: Path)
    requires k < |moves| && ((p in t0 && !Taken(moves, k, p)) || Landed(moves, k, p))
    ensures var q := Moved(p, moves[k]); (q in t0 && !Taken(moves, k + 1, q)) || Landed(moves, k + 1, q)
  {
  }

  /** After `k` moves the next one goes through exactly when no earlier source lies above it. */
  lemma NextMove(t0: Tree, moves: seq<Move>, k: nat, t: Tree)
    requires Proper(t0) && AllAdmissible(t0, moves) && Distinct(moves) && k < |moves| && MovedSoFar(t0, moves, k, t)
    ensures CanMove(t, moves[k]) <==> !Blocked(moves, k)
  {
    var m := moves[k];
    assert CanMove(t0, m);
    Uncovered(t0, moves, k, t, m.source);
    Uncovered(t0, moves, k, t, Parent(m.source));
    Uncovered(t0, moves, k, t, Parent(m.destination));
    AncestorsExist(t0, m.source, Parent(m.source));
    DestinationStaysFree(t0, moves, k, t);
    SourcesAbove(t0, moves, k);
  }

  /** An original path is still there exactly when no source covers it. */
  lemma Uncovered(t0: Tree, moves: seq<Move>, k: nat, t: Tree, p: Path)
    requires Proper(t0) && AllAdmissible(t0, moves) && k <= |moves| && MovedSoFar(t0, moves, k, t)
    ensures p in t0 ==> (p in t <==> !Taken(moves, k, p)) && (p in t ==> t[p] == t0[p])
  {
    if p in t0 {
      NoneLanded(t0, moves, k, p);
    }
  }

  lemma DestinationStaysFree(t0: Tree, moves: seq<Move>, k: nat, t: Tree)
    requires Proper(t0) && AllAdmissible(t0, moves) && Distinct(moves) && k < |moves| && MovedSoFar(t0, moves, k, t)
    ensures moves[k].destination !in t
  {
    var d := moves[k].destination;
    assert CanMove(t0, moves[k]);
    NoneLanded(t0, moves, k, Parent(d));
    forall i | 0 <= i < k ensures !(moves[i].destination <= d) {
      PrefixOfParent(moves[i].destination, d);
    }
  }

  lemma PrefixOfParent(p: Path, q: Path)
    requires p != q && q != []
    ensures |q| > 1 ==> (p <= q <==> p <= Parent(q))
    ensures p < q <==> p <= q
  {
  }

  /** Being covered, for a parent, is having a source above. */
  lemma SourcesAbove(t0: Tree, moves: seq<Move>, k: nat)
    requires Proper(t0) && AllAdmissible(t0, moves) && Distinct(moves) && k < |moves|
    ensures Blocked(moves, k) <==> Taken(moves, k, moves[k].source) || Taken(moves, k, Parent(moves[k].destination))
    ensures Taken(moves, k, Parent(moves[k].source)) ==> Taken(moves, k, moves[k].source)
  {
    hide Proper;
    assert CanMove(t0, moves[k]);
    forall i | 0 <= i < k
      ensures Hides(moves[i], moves[k]) <==>
        moves[i].source <= moves[k].source || moves[i].source <= Parent(moves[k].destination)
      ensures moves[i].source <= Parent(moves[k].source) ==> moves[i].source <= moves[k].source
    {
      assert CanMove(t0, moves[i]);
      AboveOrAt(t0, moves[i].source, moves[k]);
    }
  }

  lemma AboveOrAt(t0: Tree, s: Path, m: Move)
    requires CanMove(t0, m) && s in t0 && s != m.source
    ensures Above(s, m.source) || Above(s, m.destination) <==> s <= m.source || s <= Parent(m.destination)
    ensures s <= Parent(m.source) ==> s <= m.source
  {
  }

  lemma {:induction false} ExecutionStops(t0: Tree, moves: seq<Move>, k: nat, t: Tree)
    requires Proper(t0) && AllAdmissible(t0, moves) && Distinct(moves) && k <= |moves| && MovedSoFar(t0, moves, k, t)
    ensures var n := Executed(t, moves, k).1;
            (forall j :: k <= j < n ==> !Blocked(moves, j)) && (n < |moves| ==> Blocked(moves, n))
    ensures MovedSoFar(t0, moves, Executed(t, moves, k).1, Executed(t, moves, k).0)
    decreases |moves| - k
  {
    hide CanMove, Renamed, MovedSoFar, Blocked, Proper, AllAdmissible;
    if k < |moves| {
      NextMove(t0, moves, k, t);
      if CanMove(t, moves[k]) {
        MoveKeeps(t0, moves, k, t);
        ExecutionStops(t0, moves, k + 1, Renamed(t, moves[k]));
      }
    }
  }

  lemma NothingMovedYet(t: Tree, moves: seq<Move>)
    requires Proper(t)
    ensures MovedSoFar(t, moves, 0, t)
  {
  }

  /** After a preflight that passed, the first move to fail is the first one with an earlier source
      above its source or destination; the batch goes through exactly when there is none. */
  lemma FirstFailure(t: Tree, reachable: Path -> bool, moves: seq<Move>)
    requires Proper(t) && Passes(t, reachable, moves)
    ensures var n := Executed(t, moves, 0).1;
            && (forall j :: 0 <= j < n ==> !Blocked(moves, j))
            && (n < |moves| ==> Blocked(moves, n))
            && Proper(Executed(t, moves, 0).0)
  {
    hide Preflight, Executed;
    PassedMeaning(t, reachable, moves);
    NothingMovedYet(t, moves);
    ExecutionStops(t, moves, 0, t);
  }

  // ---------------------------------------------------------------- where the nodes end up

  /** Where the first `k` moves, made one after the other, take the node at `p`. */
  function Followed(moves: seq<Move>, k: nat, p: Path): Path
    requires k <= |moves|
  {
    if k == 0 then p else Moved(Followed(moves, k - 1, p), moves[k - 1])
  }

  /** `t` is `t0` with every node where the first `k` moves took it, and nothing else. */
  predicate HasFollowed(t0: Tree, moves: seq<Move>, k: nat, t: Tree)
    requires k <= |moves|
  {
    && (forall p :: p in t0 ==> Followed(moves, k, p) in t && t[Followed(moves, k, p)] == t0[p])
    && (forall q :: q in t ==> exists p :: p in t0 && q == Followed(moves, k, p))
  }

  lemma FollowedStep(t0: Tree, moves: seq<Move>, k: nat, t: Tree)
    requires k < |moves| && Proper(t) && CanMove(t, moves[k]) && HasFollowed(t0, moves, k, t)
    ensures HasFollowed(t0, moves, k + 1, Renamed(t, moves[k]))
  {
    hide Renamed, CanMove, Moved, Proper;
    var r := Renamed(t, moves[k]);
    forall p | p in t0 ensures Followed(moves, k + 1, p) in r && r[Followed(moves, k + 1, p)] == t0[p] {
      MovedThere(t, moves[k], Followed(moves, k, p));
    }
    forall q | q in r ensures exists p :: p in t0 && q == Followed(moves, k + 1, p) {
      var x := CameFrom(t, moves[k], q);
      var p :| p in t0 && x == Followed(moves, k, p);
      assert q == Followed(moves, k + 1, p);
    }
  }

  lemma {:induction false} ExecutionFollows(t0: Tree, moves: seq<Move>, k: nat, t: Tree)
    requires k <= |moves| && Proper(t) && HasFollowed(t0, moves, k, t)
    ensures HasFollowed(t0, moves, Executed(t, moves, k).1, Executed(t, moves, k).0)
    decreases |moves| - k
  {
    hide CanMove, Renamed, Proper, HasFollowed;
    if k < |moves| && CanMove(t, moves[k]) {
      RenamedIsProper(t, moves[k]);
      FollowedStep(t0, moves, k, t);
      ExecutionFollows(t0, moves, k + 1, Renamed(t, moves[k]));
    }
  }

  /** Whatever the batch, the moves that are made before the first failing one leave every node where they
      took it one after the other, with its content, and nothing else. */
  lemma LeavesFollowed(t: Tree, moves: seq<Move>)
    requires Proper(t)
    ensures HasFollowed(t, moves, Executed(t, moves, 0).1, Executed(t, moves, 0).0)
  {
    hide Executed, Proper;
    ExecutionFollows(t, moves, 0, t);
  }

  // ---------------------------------------------------------------- simultaneous renaming

  /** The innermost of the first `k` sources that covers `p`. */
  function Innermost(moves: seq<Move>, k: nat, p: Path): (r: Option<nat>)
    requires k <= |moves|
    ensures r.None? <==> !Taken(moves, k, p)
    ensures r.Some? ==> r.value < k && moves[r.value].source <= p
    ensures r.Some? ==> forall j :: 0 <= j < k && moves[j].source <= p ==> |moves[j].source| <= |moves[r.value].source|
  {
    if k == 0 then None
    else
      var r := Innermost(moves, k - 1, p);
      if moves[k - 1].source <= p && (r.None? || |moves[r.value].source| < |moves[k - 1].source|) then Some(k - 1)
      else r
  }

  /** Where the first `k` moves take the node at `p` when all are made at once: the innermost one that covers
      it decides. */
  function NewPath(moves: seq<Move>, k: nat, p: Path): Path
    requires k <= |moves|
  {
    match Innermost(moves, k, p)
    case Some(i) => Moved(p, moves[i])
    case None => p
  }

  /** `t` is `t0` with every node at its new path and nothing else. */
  predicate IsRenaming(t0: Tree, moves: seq<Move>, k: nat, t: Tree)
    requires k <= |moves|
  {
    && (forall p :: p in t0 ==> NewPath(moves, k, p) in t && t[NewPath(moves, k, p)] == t0[p])
    && (forall q :: q in t ==> exists p :: p in t0 && q == NewPath(moves, k, p))
  }

  /** No source lies above the destination of an earlier move. */
  predicate Unchained(moves: seq<Move>) {
    forall i, k :: 0 <= i < k < |moves| ==> !Above(moves[k].source, moves[i].destination)
  }

  lemma Comparable(a: Path, b: Path, c: Path)
    requires a <= c && b <= c
    ensures a <= b || b <= a
  {
  }

  /** No source is at or below a destination. */
  lemma SourceIsOld(t0: Tree, moves: seq<Move>, i: nat, k: nat)
    requires Proper(t0) && AllAdmissible(t0, moves) && i < |moves| && k < |moves|
    ensures !(moves[i].destination <= moves[k].source)
  {
    assert CanMove(t0, moves[i]) && CanMove(t0, moves[k]);
    DestinationIsNew(t0, moves[i], moves[k].source);
  }

  /** What one move put somewhere a later one leaves alone, unless its source lies above that place. */
  lemma StaysWherePut(t0: Tree, moves: seq<Move>, i: nat, k: nat, p: Path)
    requires Proper(t0) && AllAdmissible(t0, moves) && i < |moves| && k < |moves| && moves[i].source <= p
    requires !Above(moves[k].source, moves[i].destination)
    ensures !(moves[k].source <= Moved(p, moves[i]))
  {
    var d, s, q := moves[i].destination, moves[k].source, Moved(p, moves[i]);
    SourceIsOld(t0, moves, i, k);
    assert d <= q;
    if s <= q {
      Comparable(s, d, q);
    }
  }

  lemma PathStep(t0: Tree, moves: seq<Move>, k: nat, p: Path)
    requires Proper(t0) && AllAdmissible(t0, moves) && Distinct(moves) && Unchained(moves) && k < |moves|
    requires !Blocked(moves, k)
    ensures NewPath(moves, k + 1, p) == Moved(NewPath(moves, k, p), moves[k])
  {
    hide Proper, AllAdmissible, Innermost;
    var r, s := Innermost(moves, k, p), moves[k].source;
    if r.Some? {
      StaysWherePut(t0, moves, r.value, k, p);
      if s <= p {
        InnerFirst(moves, r.value, k, p);
      }
    }
    InnermostStep(moves, k, p);
  }

  lemma InnermostStep(moves: seq<Move>, k: nat, p: Path)
    requires k < |moves|
    ensures var r := Innermost(moves, k, p);
            var inner := moves[k].source <= p && (r.None? || |moves[r.value].source| < |moves[k].source|);
            Innermost(moves, k + 1, p) == if inner then Some(k) else r
  {
  }

  /** Of two sources that cover a path, the one moved earlier is the inner one. */
  lemma InnerFirst(moves: seq<Move>, i: nat, k: nat, p: Path)
    requires Distinct(moves) && i < k < |moves| && moves[i].source <= p && moves[k].source <= p && !Blocked(moves, k)
    ensures |moves[k].source| < |moves[i].source|
  {
    Comparable(moves[i].source, moves[k].source, p);
    NotHidden(moves, i, k);
  }

  lemma NotHidden(moves: seq<Move>, i: nat, k: nat)
    requires i < k < |moves| && !Blocked(moves, k)
    ensures !Hides(moves[i], moves[k])
  {
  }

  lemma {:induction false} FollowedIsNewPath(t0: Tree, moves: seq<Move>, k: nat, p: Path)
    requires Proper(t0) && AllAdmissible(t0, moves) && Distinct(moves) && Unchained(moves) && k <= |moves|
    requires forall j :: 0 <= j < k ==> !Blocked(moves, j)
    ensures Followed(moves, k, p) == NewPath(moves, k, p)
  {
    hide Proper, AllAdmissible, Distinct, Unchained, Blocked, Innermost, Moved, NewPath;
    if k == 0 {
      NoneYet(moves, p);
    } else {
      FollowedIsNewPath(t0, moves, k - 1, p);
      PathStep(t0, moves, k - 1, p);
    }
  }

  lemma NoneYet(moves: seq<Move>, p: Path)
    ensures NewPath(moves, 0, p) == p
  {
  }

  /** After `k` moves nothing is at or below any of their sources. */
  predicate Cleared(moves: seq<Move>, k: nat, t: Tree)
    requires k <= |moves|
  {
    forall q :: q in t ==> !Taken(moves, k, q)
  }

  lemma ClearedStep(t0: Tree, moves: seq<Move>, k: nat, t: Tree)
    requires Proper(t0) && AllAdmissible(t0, moves) && Distinct(moves) && k < |moves| && !Blocked(moves, k)
    requires Proper(t) && CanMove(t, moves[k]) && Cleared(moves, k, t)
    ensures Cleared(moves, k + 1, Renamed(t, moves[k]))
  {
    hide Renamed, Proper, AllAdmissible;
    forall q, i | q in Renamed(t, moves[k]) && 0 <= i < k + 1 ensures !(moves[i].source <= q) {
      var p := CameFrom(t, moves[k], q);
      NotPutBack(t0, moves, i, k, p);
      assert i < k ==> !(moves[i].source <= p);
    }
  }

  /** What a move puts somewhere is not at or below an earlier source, nor its own. */
  lemma NotPutBack(t0: Tree, moves: seq<Move>, i: nat, k: nat, p: Path)
    requires Proper(t0) && AllAdmissible(t0, moves) && i <= k < |moves| && !Blocked(moves, k)
    ensures moves[k].source <= p ==> !(moves[i].source <= Moved(p, moves[k]))
    ensures !(moves[k].source <= p) ==> Moved(p, moves[k]) == p
  {
    hide Proper, Blocked;
    if moves[k].source <= p {
      var q, d, s := Moved(p, moves[k]), moves[k].destination, moves[i].source;
      assert d <= q && CanMove(t0, moves[k]);
      SourceIsOld(t0, moves, k, i);
      if s <= q {
        Comparable(s, d, q);
        if i < k {
          NotHidden(moves, i, k);
        }
      }
    }
  }

  lemma {:induction false} ExecutionClears(t0: Tree, moves: seq<Move>, k: nat, t: Tree)
    requires Proper(t0) && AllAdmissible(t0, moves) && Distinct(moves) && k <= |moves|
    requires forall j :: 0 <= j < |moves| ==> !Blocked(moves, j)
    requires Proper(t) && Cleared(moves, k, t)
    ensures Cleared(moves, Executed(t, moves, k).1, Executed(t, moves, k).0)
    decreases |moves| - k
  {
    hide Proper, AllAdmissible, Distinct, Cleared, CanMove, Renamed, Blocked;
    if k < |moves| && CanMove(t, moves[k]) {
      ClearedStep(t0, moves, k, t);
      RenamedIsProper(t, moves[k]);
      ExecutionClears(t0, moves, k + 1, Renamed(t, moves[k]));
    }
  }

  /** A batch that goes through leaves the simultaneous renaming of the original tree exactly when no source
      lies above the destination of an earlier move. */
  lemma RenamesWhen(t: Tree, reachable: Path -> bool, moves: seq<Move>)
    requires Proper(t) && Passes(t, reachable, moves) && Executed(t, moves, 0).1 == |moves|
    ensures IsRenaming(t, moves, |moves|, Executed(t, moves, 0).0) <==> Unchained(moves)
  {
    hide Preflight, Executed, Proper, AllAdmissible, Distinct, Unchained, Blocked, Innermost, NewPath, Followed;
    PassedMeaning(t, reachable, moves);
    FirstFailure(t, reachable, moves);
    LeavesFollowed(t, moves);
    if Unchained(moves) {
      UnchainedIsRenaming(t, moves, Executed(t, moves, 0).0);
    } else {
      NothingTaken(t, moves);
      ExecutionClears(t, moves, 0, t);
      ChainedIsNotRenaming(t, moves, Executed(t, moves, 0).0);
    }
  }

  lemma UnchainedIsRenaming(t0: Tree, moves: seq<Move>, t: Tree)
    requires Proper(t0) && AllAdmissible(t0, moves) && Distinct(moves) && Unchained(moves)
    requires HasFollowed(t0, moves, |moves|, t) && forall j :: 0 <= j < |moves| ==> !Blocked(moves, j)
    ensures IsRenaming(t0, moves, |moves|, t)
  {
    hide Followed, NewPath, Proper, AllAdmissible, Distinct, Unchained, Blocked, HasFollowed;
    forall p | p in t0 ensures NewPath(moves, |moves|, p) in t && t[NewPath(moves, |moves|, p)] == t0[p] {
      FollowedIsNewPath(t0, moves, |moves|, p);
      FollowedHere(t0, moves, t, p);
    }
    forall q | q in t ensures exists p :: p in t0 && q == NewPath(moves, |moves|, p) {
      var p := FollowedFrom(t0, moves, t, q);
      FollowedIsNewPath(t0, moves, |moves|, p);
    }
  }

  lemma FollowedHere(t0: Tree, moves: seq<Move>, t: Tree, p: Path)
    requires HasFollowed(t0, moves, |moves|, t) && p in t0
    ensures Followed(moves, |moves|, p) in t && t[Followed(moves, |moves|, p)] == t0[p]
  {
    hide Followed;
  }

  lemma FollowedFrom(t0: Tree, moves: seq<Move>, t: Tree, q: Path) returns (p: Path)
    requires HasFollowed(t0, moves, |moves|, t) && q in t
    ensures p in t0 && q == Followed(moves, |moves|, p)
  {
    hide Followed;
    p :| p in t0 && q == Followed(moves, |moves|, p);
  }

  lemma NothingTaken(t: Tree, moves: seq<Move>)
    ensures Cleared(moves, 0, t)
  {
  }

  /** When a source lies above an earlier destination, nothing stays at that destination. */
  lemma ChainedIsNotRenaming(t0: Tree, moves: seq<Move>, t: Tree)
    requires Proper(t0) && AllAdmissible(t0, moves) && Distinct(moves) && Cleared(moves, |moves|, t)
      && !Unchained(moves)
    ensures !IsRenaming(t0, moves, |moves|, t)
  {
    hide Proper, Innermost;
    var i, k :| 0 <= i < k < |moves| && Above(moves[k].source, moves[i].destination);
    var s, d := moves[i].source, moves[i].destination;
    assert CanMove(t0, moves[i]);
    OwnSource(moves, i);
    assert moves[k].source <= d;
    assert Taken(moves, |moves|, d);
  }

  /** The innermost source covering a source is that source. */
  lemma OwnSource(moves: seq<Move>, i: nat)
    requires Distinct(moves) && i < |moves|
    ensures NewPath(moves, |moves|, moves[i].source) == moves[i].destination
  {
    hide Innermost;
    var s := moves[i].source;
    assert Taken(moves, |moves|, s);
    var r := Innermost(moves, |moves|, s);
    assert |moves[r.value].source| >= |s| && moves[r.value].source == s;
  }

  /** No source lies above another move's source or destination. */
  predicate Independent(moves: seq<Move>) {
    forall i, j :: 0 <= i < |moves| && 0 <= j < |moves| && i != j ==> !Hides(moves[i], moves[j])
  }

  /** Independent moves that pass the preflight all go through, and what they leave is the simultaneous
      renaming. */
  lemma SimultaneousRenaming(t: Tree, reachable: Path -> bool, moves: seq<Move>)
    requires Proper(t) && Passes(t, reachable, moves) && Independent(moves)
    ensures Executed(t, moves, 0).1 == |moves| && IsRenaming(t, moves, |moves|, Executed(t, moves, 0).0)
  {
    hide Preflight, Executed, Proper, IsRenaming;
    FirstFailure(t, reachable, moves);
    assert Unchained(moves);
    RenamesWhen(t, reachable, moves);
  }

  // ---------------------------------------------------------------- the order of the moves

  ghost predicate SameMoves(moves: seq<Move>, other: seq<Move>) {
    Distinct(other) && forall m :: m in moves <==> m in other
  }

  lemma ReorderedPasses(t: Tree, reachable: Path -> bool, moves: seq<Move>, other: seq<Move>)
    requires Proper(t) && Passes(t, reachable, moves) && SameMoves(moves, other)
    ensures Passes(t, reachable, other)
    ensures Independent(moves) ==> Independent(other)
  {
    hide Preflight, Admissible, Hides, Proper;
    PreflightMeaning(t, reachable, moves, 0);
    PreflightMeaning(t, reachable, other, 0);
    forall j | 0 <= j < |other| ensures Admissible(t, reachable, other[j]) {
      assert other[j] in moves;
    }
    if Independent(moves) {
      forall i, j | 0 <= i < |other| && 0 <= j < |other| && i != j ensures !Hides(other[i], other[j]) {
        assert other[i] in moves && other[j] in moves && other[i].source != other[j].source;
      }
    }
  }

  lemma SameNewPath(moves: seq<Move>, other: seq<Move>, p: Path)
    requires Distinct(moves) && SameMoves(moves, other)
    ensures NewPath(moves, |moves|, p) == NewPath(other, |other|, p)
  {
    hide Innermost, Moved, Distinct;
    var r, r' := Innermost(moves, |moves|, p), Innermost(other, |other|, p);
    if r.Some? {
      assert moves[r.value] in other;
    }
    if r'.Some? {
      assert other[r'.value] in moves;
    }
    if r.Some? && r'.Some? {
      SameInnermost(moves, r.value, other[r'.value], p);
      SameInnermost(other, r'.value, moves[r.value], p);
      SameSource(moves, r.value, other[r'.value]);
    }
  }

  /** A source of the batch that covers the path is no longer than the innermost. */
  lemma SameInnermost(moves: seq<Move>, i: nat, m: Move, p: Path)
    requires Innermost(moves, |moves|, p) == Some(i) && m in moves && m.source <= p
    ensures |m.source| <= |moves[i].source|
  {
    hide Innermost;
  }

  lemma SameSource(moves: seq<Move>, i: nat, m: Move)
    requires Distinct(moves) && i < |moves| && m in moves && m.source == moves[i].source
    ensures m == moves[i]
  {
  }

  /** Independent moves may be made in any order: each order goes through and all leave the same tree. */
  lemma OrderIsIrrelevant(t: Tree, reachable: Path -> bool, moves: seq<Move>, other: seq<Move>)
    requires Proper(t) && Passes(t, reachable, moves) && Independent(moves) && SameMoves(moves, other)
    ensures Passes(t, reachable, other) && Executed(t, other, 0).1 == |other|
    ensures Executed(t, other, 0).0 == Executed(t, moves, 0).0
  {
    hide Preflight, Executed, Independent, NewPath, Proper, IsRenaming;
    PassedMeaning(t, reachable, moves);
    ReorderedPasses(t, reachable, moves, other);
    SimultaneousRenaming(t, reachable, moves);
    SimultaneousRenaming(t, reachable, other);
    forall p ensures NewPath(moves, |moves|, p) == NewPath(other, |other|, p) {
      SameNewPath(moves, other, p);
    }
    RenamingIsUnique(t, moves, other, Executed(t, moves, 0).0, Executed(t, other, 0).0);
  }

  lemma RenamingIsUnique(t: Tree, moves: seq<Move>, other: seq<Move>, a: Tree, b: Tree)
    requires IsRenaming(t, moves, |moves|, a) && IsRenaming(t, other, |other|, b)
    requires forall p :: NewPath(moves, |moves|, p) == NewPath(other, |other|, p)
    ensures a == b
  {
    hide NewPath;
    forall q | q in a ensures q in b && a[q] == b[q] {
      var p :| p in t && q == NewPath(moves, |moves|, p);
    }
    forall q | q in b ensures q in a {
      var p :| p in t && q == NewPath(other, |other|, p);
    }
  }

  function Reversed(moves: seq<Move>): (r: seq<Move>)
    ensures |r| == |moves|
  {
    seq(|moves|, i requires 0 <= i < |moves| => moves[|moves| - 1 - i])
  }

  lemma ReversedSame(moves: seq<Move>)
    requires Distinct(moves)
    ensures SameMoves(moves, Reversed(moves))
  {
    var r := Reversed(moves);
    forall m | m in moves ensures m in r {
      var i :| 0 <= i < |moves| && moves[i] == m;
      assert r[|moves| - 1 - i] == m;
    }
  }

  /** A batch that passes the preflight goes through in every order exactly when it is independent. */
  lemma EveryOrder(t: Tree, reachable: Path -> bool, moves: seq<Move>)
    requires Proper(t) && Passes(t, reachable, moves)
    ensures Independent(moves) <==> forall other :: SameMoves(moves, other) ==> Executed(t, other, 0).1 == |other|
  {
    hide Preflight, Executed, Proper, Independent, SameMoves;
    PassedMeaning(t, reachable, moves);
    if Independent(moves) {
      forall other | SameMoves(moves, other) ensures Executed(t, other, 0).1 == |other| {
        OrderIsIrrelevant(t, reachable, moves, other);
      }
    }
    if forall other :: SameMoves(moves, other) ==> Executed(t, other, 0).1 == |other| {
      var back := Reversed(moves);
      ReversedSame(moves);
      Itself(moves);
      ReorderedPasses(t, reachable, moves, back);
      FirstFailure(t, reachable, moves);
      FirstFailure(t, reachable, back);
      UnblockedBothWays(moves);
    }
  }

  lemma Itself(moves: seq<Move>)
    requires Distinct(moves)
    ensures SameMoves(moves, moves)
  {
  }

  lemma UnblockedBothWays(moves: seq<Move>)
    requires forall j :: 0 <= j < |moves| ==> !Blocked(moves, j) && !Blocked(Reversed(moves), j)
    ensures Independent(moves)
  {
    hide Hides;
    var n := |moves|;
    forall i, j | 0 <= i < n && 0 <= j < n && i != j ensures !Hides(moves[i], moves[j]) {
      if i < j {
        assert !Blocked(moves, j);
      } else {
        assert !Blocked(Reversed(moves), n - 1 - j);
        assert Reversed(moves)[n - 1 - i] == moves[i] && Reversed(moves)[n - 1 - j] == moves[j];
      }
    }
  }

  /** The preflight does not see this: a directory moved away before something inside it. The batch
      passes, makes its first move, and fails at the second, leaving the first one made. */
  lemma PassesAndFails()
    ensures var a, b, x, y: Path := ["/", "A"], ["/", "A", "B"], ["/", "X"], ["/", "Y"];
            var dir := Node(true, true, []);
            var t: Tree := map[ROOT := dir, a := dir, b := dir];
            var moves := [Move(a, x), Move(b, y)];
            Proper(t) && Passes(t, p => true, moves) && Executed(t, moves, 0).1 == 1 && x in Executed(t, moves, 0).0
  {
    hide Preflight, Renamed, Moved, Proper, CanMove, Executed;
    var a, b, x, y: Path := ["/", "A"], ["/", "A", "B"], ["/", "X"], ["/", "Y"];
    var dir := Node(true, true, []);
    var t: Tree := map[ROOT := dir, a := dir, b := dir];
    var moves := [Move(a, x), Move(b, y)];
    BothMovable(t, a, b, x, y);
    PreflightMeaning(t, p => true, moves, 0);
    FirstFailure(t, p => true, moves);
    assert b[..2] == a;
    assert Hides(moves[0], moves[1]);
    assert Blocked(moves, 1) && !Blocked(moves, 0);
    FirstMoved(t, moves);
    RenamedMeaning(t, moves[0]);
    LeadsTo(a, moves[0]);
  }

  lemma BothMovable(t: Tree, a: Path, b: Path, x: Path, y: Path)
    requires a == ["/", "A"] && b == ["/", "A", "B"] && x == ["/", "X"] && y == ["/", "Y"]
    requires var dir := Node(true, true, []); t == map[ROOT := dir, a := dir, b := dir]
    ensures Proper(t) && CanMove(t, Move(a, x)) && CanMove(t, Move(b, y)) && a != b && x != y
  {
    assert Parent(a) == ROOT && Parent(b) == a && Parent(x) == ROOT && Parent(y) == ROOT;
    assert a[1] == "A" && x[1] == "X" && b[1] == "A" && y[1] == "Y";
  }

  lemma FirstMoved(t: Tree, moves: seq<Move>)
    requires |moves| == 2 && CanMove(t, moves[0]) && Executed(t, moves, 0).1 == 1
    ensures Executed(t, moves, 0).0 == Renamed(t, moves[0])
  {
    hide CanMove, Renamed;
  }

  lemma LeadsTo(a: Path, m: Move)
    requires m.source == a
    ensures Moved(a, m) == m.destination
  {
  }

  /** The file system as the batch sees it. */
  class FileSystem {
    var tree: Tree
    const reachable: Path -> bool

    constructor (tree: Tree, reachable: Path -> bool)
      ensures this.tree == tree && this.reachable == reachable
    {
      this.tree, this.reachable := tree, reachable;
    }

    /** `moveFilesAtomicallyAfterPreflight`, the paths being standardized already. */
    method MoveFiles(moves: seq<Move>) returns (error: Option<Error>)
      requires Proper(tree)
      modifies this
      ensures Proper(tree)
      ensures !Passes(old(tree), reachable, moves) ==>
        error == Preflight(old(tree), reachable, moves, 0) && error.Some? && tree == old(tree)
      ensures Passes(old(tree), reachable, moves) ==>
        var (t, n) := Executed(old(tree), moves, 0);
        tree == t && error == if n == |moves| then None else Some(MoveFailed(moves[n].source, moves[n].destination))
    {
      hide Check, Proper, Preflight, CanMove, Renamed, Blocked;
      error := RunPreflight(moves);
      if error.Some? {
        return;
      }
      FirstFailure(tree, reachable, moves);
      var i := 0;
      while i < |moves|
        invariant 0 <= i <= |moves|
        invariant Executed(tree, moves, i) == Executed(old(tree), moves, 0)
      {
        var moved := MoveItem(moves[i]);
        if !moved {
          error := Some(MoveFailed(moves[i].source, moves[i].destination));
          return;
        }
        i := i + 1;
      }
    }

    method RunPreflight(moves: seq<Move>) returns (error: Option<Error>)
      ensures error == Preflight(tree, reachable, moves, 0)
    {
      hide Check;
      var seenSources: set<Path>, seenDestinations: set<Path> := {}, {};
      for i := 0 to |moves|
        invariant seenSources == Sources(moves[..i]) && seenDestinations == Destinations(moves[..i])
        invariant Preflight(tree, reachable, moves, 0) == Preflight(tree, reachable, moves, i)
      {
        var m := moves[i];
        error := CheckMove(m, seenSources, seenDestinations);
        if error.Some? {
          return;
        }
        SeenGrow(moves, i);
        seenSources, seenDestinations := seenSources + {m.source}, seenDestinations + {m.destination};
      }
      error := None;
    }

    method CheckMove(m: Move, seenSources: set<Path>, seenDestinations: set<Path>) returns (error: Option<Error>)
      ensures error == Check(tree, reachable, m, seenSources, seenDestinations)
    {
      var source, destination := m.source, m.destination;
      if source == [] {
        return Some(EmptySource);
      }
      if source == destination {
        return Some(SourceEqualsDestination(source));
      }
      if source in seenSources {
        return Some(DuplicateSource(source));
      }
      if !Writable(tree, Parent(source)) {
        return Some(SourceParentIsNotWritable(Parent(source)));
      }
      if destination in seenDestinations {
        return Some(DuplicateDestination(destination));
      }
      if source !in tree {
        return Some(SourceDoesNotExist(source));
      }
      var isDirectory := tree[source].isDirectory;
      if !reachable(source) {
        return Some(SourceIsNotReachable(source));
      }
      if destination in tree {
        return Some(DestinationAlreadyExists(destination));
      }
      var parent := Parent(destination);
      if parent !in tree {
        return Some(DestinationParentDoesNotExist(parent));
      }
      if !tree[parent].isDirectory {
        return Some(DestinationParentIsNotDirectory(parent));
      }
      if !Writable(tree, parent) {
        return Some(DestinationParentIsNotWritable(parent));
      }
      if isDirectory && source <= destination {
        return Some(MoveWouldPlaceDirectoryInsideItself(source, destination));
      }
      error := None;
    }

    /** The file manager's move. */
    method MoveItem(m: Move) returns (moved: bool)
      modifies this
      ensures moved == CanMove(old(tree), m)
      ensures tree == if moved then Renamed(old(tree), m) else old(tree)
    {
      moved := CanMove(tree, m);
      if moved {
        tree := Renamed(tree, m);
      }
    }
  }

  lemma SeenGrow(moves: seq<Move>, i: nat)
    requires i < |moves|
    ensures Sources(moves[..i + 1]) == Sources(moves[..i]) + {moves[i].source}
    ensures Destinations(moves[..i + 1]) == Destinations(moves[..i]) + {moves[i].destination}
  {
    assert moves[..i + 1][..i] == moves[..i];
  }
}
