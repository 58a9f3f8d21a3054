/** A parsed document as a tree of scalars, visited in document order and changed in place. */
module Document {

  /** A *yaml.Node that is a scalar. */
  class ScalarCell {
    var value: string
    var tag: string

    constructor (value: string, tag: string)
      ensures this.value == value && this.tag == tag
    {
      this.value, this.tag := value, tag;
    }
  }

  datatype Node = Scalar(cell: ScalarCell) | Branch(content: seq<Node>)

  function Leaves(n: Node): seq<ScalarCell> {
    match n
    case Scalar(c) => [c]
    case Branch(content) => LeavesOf(content)
  }

  function LeavesOf(nodes: seq<Node>): seq<ScalarCell> {
    if nodes == [] then [] else Leaves(nodes[0]) + LeavesOf(nodes[1..])
  }

  ghost predicate Distinct(cells: seq<ScalarCell>) {
    forall i, j :: 0 <= i < j < |cells| ==> cells[i] != cells[j]
  }

  /** What a scalar holds. */
  datatype Held = Held(value: string, tag: string)

  function Snapshot(cells: seq<ScalarCell>): (hs: seq<Held>)
    reads cells
    ensures |hs| == |cells| && forall i :: 0 <= i < |cells| ==> hs[i] == Held(cells[i].value, cells[i].tag)
  {
    seq(|cells|, i requires 0 <= i < |cells| reads cells => Held(cells[i].value, cells[i].tag))
  }

  /** What a visit leaves in a scalar, and what it reports. */
  datatype Visited = Visited(held: Held, reports: seq<string>)

  type Visitor = Held -> Visited

  /** Every scalar visited on its own. */
  function VisitAll(fn: Visitor, hs: seq<Held>): (r: seq<Held>)
    ensures |r| == |hs| && forall i :: 0 <= i < |r| ==> r[i] == fn(hs[i]).held
  {
    seq(|hs|, i requires 0 <= i < |hs| => fn(hs[i]).held)
  }

  /** All the reports, in document order. */
  function Reports(fn: Visitor, hs: seq<Held>): seq<string> {
    if hs == [] then [] else fn(hs[0]).reports + Reports(fn, hs[1..])
  }

  lemma {:induction false} ReportsSnoc(fn: Visitor, hs: seq<Held>, h: Held)
    ensures Reports(fn, hs + [h]) == Reports(fn, hs) + fn(h).reports
  {
    if hs == [] {
      assert hs + [h] == [h] && [h][1..] == [];
    } else {
      assert (hs + [h])[1..] == hs[1..] + [h];
      ReportsSnoc(fn, hs[1..], h);
    }
  }

  lemma {:induction false} LeavesOfConcat(a: seq<Node>, b: seq<Node>)
    ensures LeavesOf(a + b) == LeavesOf(a) + LeavesOf(b)
  {
    if a == [] {
      assert a + b == b;
    } else {
      assert (a + b)[1..] == a[1..] + b;
      LeavesOfConcat(a[1..], b);
    }
  }

  /** The leaves below child `i` follow those of its elder siblings. */
  lemma ChildLeaves(content: seq<Node>, i: nat)
    requires i < |content|
    ensures LeavesOf(content[..i + 1]) == LeavesOf(content[..i]) + Leaves(content[i])
    ensures forall c :: c in Leaves(content[i]) ==> c in LeavesOf(content)
  {
    assert content == content[..i + 1] + content[i + 1..];
    LeavesOfConcat(content[..i + 1], content[i + 1..]);
    assert content[..i + 1] == content[..i] + [content[i]];
    LeavesOfConcat(content[..i], [content[i]]);
    OneChild(content[i]);
  }

  lemma OneChild(n: Node)
    ensures LeavesOf([n]) == Leaves(n)
  {
    assert [n][1..] == [];
  }

  /** What each of the cells holds. */
  ghost function Contents(cells: seq<ScalarCell>): map<ScalarCell, Held>
    reads cells
  {
    if cells == [] then map[]
    else
      var last := cells[|cells| - 1];
      Contents(cells[..|cells| - 1])[last := Held(last.value, last.tag)]
  }

  lemma {:induction false} ContentsAre(cells: seq<ScalarCell>)
    ensures Contents(cells).Keys == set c | c in cells
    ensures forall c :: c in cells ==> Contents(cells)[c] == Held(c.value, c.tag)
  {
    if cells != [] {
      ContentsAre(cells[..|cells| - 1]);
      assert cells == cells[..|cells| - 1] + [cells[|cells| - 1]];
    }
  }

  /** A moment of a walk: what the cells hold, and what was reported so far. */
  datatype Moment = Moment(store: map<ScalarCell, Held>, reports: seq<string>)

  ghost function VisitOne(fn: Visitor, m: Moment, cell: ScalarCell): Moment {
    if cell !in m.store then m
    else
      var v := fn(m.store[cell]);
      Moment(m.store[cell := v.held], m.reports + v.reports)
  }

  /** The cells visited one after another, each on what it holds by then: a cell listed twice is visited twice. */
  ghost function VisitInTurn(fn: Visitor, m: Moment, cells: seq<ScalarCell>): Moment {
    if cells == [] then m else VisitOne(fn, VisitInTurn(fn, m, cells[..|cells| - 1]), cells[|cells| - 1])
  }

  lemma {:induction false} VisitConcat(fn: Visitor, m: Moment, a: seq<ScalarCell>, b: seq<ScalarCell>)
    ensures VisitInTurn(fn, m, a + b) == VisitInTurn(fn, VisitInTurn(fn, m, a), b)
    decreases |b|
  {
    if b == [] {
      assert a + b == a;
    } else {
      assert (a + b)[..|a + b| - 1] == a + b[..|b| - 1];
      VisitConcat(fn, m, a, b[..|b| - 1]);
    }
  }

  /** walkScalars: every scalar of the tree, in document order, in place, whatever the visitor. */
  method WalkScalars(n: Node, fn: Visitor) returns (reports: seq<string>)
    modifies Leaves(n)
    ensures Moment(Contents(Leaves(n)), reports) == VisitInTurn(fn, Moment(old(Contents(Leaves(n))), []), Leaves(n))
  {
    reports := WalkNode(n, fn, [], Leaves(n));
  }

  /** The walk below `n`, in a document whose scalars are `all`. */
  method WalkNode(n: Node, fn: Visitor, reports: seq<string>, ghost all: seq<ScalarCell>) returns (out: seq<string>)
    requires forall c :: c in Leaves(n) ==> c in all
    modifies all
    ensures Moment(Contents(all), out) == VisitInTurn(fn, Moment(old(Contents(all)), reports), Leaves(n))
    decreases n, 0
  {
    match n
    case Scalar(cell) =>
      ghost var start := Moment(Contents(all), reports);
      out := WalkScalar(cell, fn, reports, all);
      assert [cell][..0] == [];
      assert VisitInTurn(fn, start, [cell]) == VisitOne(fn, start, cell);
    case Branch(content) =>
      out := WalkChildren(content, fn, reports, all);
  }

  method WalkScalar(cell: ScalarCell, fn: Visitor, reports: seq<string>, ghost all: seq<ScalarCell>) returns (out: seq<string>)
    requires cell in all
    modifies all
    ensures Moment(Contents(all), out) == VisitOne(fn, Moment(old(Contents(all)), reports), cell)
  {
    ContentsAre(all);
    ghost var before := Contents(all);
    var v := fn(Held(cell.value, cell.tag));
    cell.value, cell.tag := v.held.value, v.held.tag;
    ContentsAre(all);
    assert Contents(all) == before[cell := v.held];
    out := reports + v.reports;
  }

  /** The loop over a node's children. */
  method WalkChildren(content: seq<Node>, fn: Visitor, reports: seq<string>, ghost all: seq<ScalarCell>) returns (out: seq<string>)
    requires forall c :: c in LeavesOf(content) ==> c in all
    modifies all
    ensures Moment(Contents(all), out) == VisitInTurn(fn, Moment(old(Contents(all)), reports), LeavesOf(content))
    decreases content, 0
  {
    out := reports;
    ghost var start := Moment(Contents(all), reports);
    for i := 0 to |content|
      invariant Moment(Contents(all), out) == VisitInTurn(fn, start, LeavesOf(content[..i]))
    {
      ChildLeaves(content, i);
      VisitConcat(fn, start, LeavesOf(content[..i]), Leaves(content[i]));
      out := WalkNode(content[i], fn, out, all);
    }
    assert content[..|content|] == content;
  }

  // ----- a document without sharing -----

  /** What `store` says of the cells, in their order. */
  ghost function HeldIn(store: map<ScalarCell, Held>, cells: seq<ScalarCell>): (hs: seq<Held>)
    requires forall c :: c in cells ==> c in store
    ensures |hs| == |cells| && forall i :: 0 <= i < |cells| ==> hs[i] == store[cells[i]]
  {
    seq(|cells|, i requires 0 <= i < |cells| => store[cells[i]])
  }

  lemma {:induction false} VisitKeepsKeys(fn: Visitor, m: Moment, cells: seq<ScalarCell>)
    ensures VisitInTurn(fn, m, cells).store.Keys == m.store.Keys
  {
    if cells != [] {
      VisitKeepsKeys(fn, m, cells[..|cells| - 1]);
    }
  }

  /** When no scalar occurs twice, each is visited on what it held at the start, and no other cell changes. */
  lemma {:induction false} DistinctVisit(fn: Visitor, m: Moment, cells: seq<ScalarCell>, c: ScalarCell)
    requires Distinct(cells) && c in m.store
    ensures VisitInTurn(fn, m, cells).store.Keys == m.store.Keys
    ensures VisitInTurn(fn, m, cells).store[c] == if c in cells then fn(m.store[c]).held else m.store[c]
  {
    VisitKeepsKeys(fn, m, cells);
    if cells != [] {
      var init, last := cells[..|cells| - 1], cells[|cells| - 1];
      VisitKeepsKeys(fn, m, init);
      DistinctVisit(fn, m, init, c);
      assert cells == init + [last] && last !in init;
    }
  }

  lemma {:induction false} DistinctReports(fn: Visitor, m: Moment, cells: seq<ScalarCell>)
    requires Distinct(cells) && forall c :: c in cells ==> c in m.store
    ensures VisitInTurn(fn, m, cells).reports == m.reports + Reports(fn, HeldIn(m.store, cells))
  {
    if cells != [] {
      var init, last := cells[..|cells| - 1], cells[|cells| - 1];
      assert cells == init + [last] && last !in init;
      DistinctReports(fn, m, init);
      DistinctVisit(fn, m, init, last);
      var hs, h := HeldIn(m.store, init), m.store[last];
      assert HeldIn(m.store, cells) == hs + [h];
      ReportsSnoc(fn, hs, h);
      Associates(m.reports, Reports(fn, hs), fn(h).reports);
    }
  }

  lemma Associates(a: seq<string>, b: seq<string>, c: seq<string>)
    ensures a + b + c == a + (b + c)
  {
  }

  /** Then the walk is the visit of every scalar on its own. */
  lemma DistinctVisits(fn: Visitor, store: map<ScalarCell, Held>, cells: seq<ScalarCell>)
    requires Distinct(cells) && forall c :: c in cells ==> c in store
    ensures var m := VisitInTurn(fn, Moment(store, []), cells);
      && m.store.Keys == store.Keys
      && HeldIn(m.store, cells) == VisitAll(fn, HeldIn(store, cells))
      && m.reports == Reports(fn, HeldIn(store, cells))
  {
    var start := Moment(store, []);
    VisitKeepsKeys(fn, start, cells);
    DistinctReports(fn, start, cells);
    forall i | 0 <= i < |cells|
      ensures VisitInTurn(fn, start, cells).store[cells[i]] == fn(store[cells[i]]).held
    {
      DistinctVisit(fn, start, cells, cells[i]);
    }
  }

  /** The same as the heap shows it after the walk. */
  lemma AfterDistinctWalk(fn: Visitor, cells: seq<ScalarCell>, was: map<ScalarCell, Held>, held: seq<Held>, reports: seq<string>)
    requires Distinct(cells) && Recorded(cells, was, held)
    requires Moment(Contents(cells), reports) == VisitInTurn(fn, Moment(was, []), cells)
    ensures Snapshot(cells) == VisitAll(fn, held) && reports == Reports(fn, held)
  {
    DistinctVisits(fn, was, cells);
    HeldIsSnapshot(cells);
  }

  /** `store` and `held` say the same of the cells. */
  ghost predicate Recorded(cells: seq<ScalarCell>, store: map<ScalarCell, Held>, held: seq<Held>) {
    store.Keys == (set c | c in cells) && HeldIn(store, cells) == held
  }

  lemma HeldIsSnapshot(cells: seq<ScalarCell>)
    ensures Recorded(cells, Contents(cells), Snapshot(cells))
  {
    ContentsAre(cells);
  }
}
