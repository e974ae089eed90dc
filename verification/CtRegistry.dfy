/** The registry of open card-terminals: the linked list of src/ct-api/ct_list.c, and CT_init and CT_close of
    src/ct-api/ctapi.c, which own it. */
module CtRegistry {

  datatype Code = Ok | ErrCt | Failure(reason: nat)

  /** A card-terminal; what it does with its reader is not part of this model. */
  class Terminal {
    const port: int
    var open: bool
    ghost var deleted: bool

    constructor (port: int)
      ensures this.port == port && !open && !deleted
    {
      this.port, open, deleted := port, false, false;
    }

    method Delete()
      requires !deleted
      modifies this`deleted
      ensures deleted
    {
      deleted := true;
    }
  }

  class Node {
    const ctn: int
    const ct: Terminal
    var next: Node?
    ghost var freed: bool

    constructor (ctn: int, ct: Terminal)
      ensures this.ctn == ctn && this.ct == ct && next == null && !freed
    {
      this.ctn, this.ct, next, freed := ctn, ct, null, false;
    }

    ghost method Free()
      requires !freed
      modifies this`freed
      ensures freed
    {
      freed := true;
    }
  }

  /** The k-th node is the first one with the number, or there is none and k is their count. */
  predicate IsFirst(nodes: seq<Node>, ctn: int, k: nat) {
    && k <= |nodes| && (forall i | 0 <= i < k :: nodes[i].ctn != ctn)
    && (k < |nodes| ==> nodes[k].ctn == ctn)
  }

  /** The node at a place, or none behind the last. */
  function At(nodes: seq<Node>, i: nat): Node? { if i < |nodes| then nodes[i] else null }

  predicate Apart(nodes: seq<Node>, i: nat, j: nat)
    requires i < |nodes| && j < |nodes|
  {
    nodes[i] != nodes[j]
  }

  predicate Distinct(nodes: seq<Node>) { forall i, j | 0 <= i < j < |nodes| :: Apart(nodes, i, j) }

  predicate OwnTerminals(nodes: seq<Node>, i: nat, j: nat)
    requires i < |nodes| && j < |nodes|
  {
    nodes[i].ct != nodes[j].ct
  }

  /** No terminal is in the list twice. */
  predicate Sole(nodes: seq<Node>) { forall i, j | 0 <= i < j < |nodes| :: OwnTerminals(nodes, i, j) }

  /** Nodes in use, each linked to the next and the last to none. The links of a finite sequence of different
      nodes cannot form a cycle. */
  ghost predicate Linked(nodes: seq<Node>)
    reads nodes
  {
    Distinct(nodes) && forall i | 0 <= i < |nodes| :: Link(nodes, i)
  }

  ghost predicate Link(nodes: seq<Node>, i: nat)
    requires i < |nodes|
    reads nodes
  {
    !nodes[i].freed && nodes[i].next == At(nodes, i + 1)
  }

  /** The nodes without the k-th. */
  function Without(nodes: seq<Node>, k: nat): (r: seq<Node>)
    requires k < |nodes|
    ensures |r| == |nodes| - 1
    ensures forall i | 0 <= i < |r| :: r[i] == nodes[Skip(k, i)]
  {
    nodes[..k] + nodes[k + 1..]
  }

  lemma WithoutAt(nodes: seq<Node>, k: nat, i: nat)
    requires k < |nodes|
    ensures At(Without(nodes, k), i) == At(nodes, Skip(k, i))
  {
  }

  function Skip(k: nat, i: nat): nat { if i < k then i else i + 1 }

  lemma {:induction false} WithoutDistinct(nodes: seq<Node>, k: nat)
    requires k < |nodes| && Distinct(nodes)
    ensures Distinct(Without(nodes, k))
  {
    var r := Without(nodes, k);
    forall i, j | 0 <= i < j < |r|
      ensures Apart(r, i, j)
    {
      assert Apart(nodes, Skip(k, i), Skip(k, j));
    }
  }

  class List {
    var first: Node?
    var last: Node?
    var elements: int
    /** The nodes from the first to the last. */
    ghost var spine: seq<Node>

    ghost predicate Valid()
      reads this, spine
    {
      && Linked(spine) && elements == |spine|
      && first == At(spine, 0)
      && last == (if spine == [] then null else spine[|spine| - 1])
    }

    constructor ()
      ensures Valid() && spine == []
    {
      first, last, elements, spine := null, null, 0, [];
    }

    method Add(ct: Terminal, ctn: int)
      requires Valid()
      modifies this, last
      ensures Valid() && |spine| == |old(spine)| + 1 && spine[..|old(spine)|] == old(spine)
      ensures var n := spine[|old(spine)|]; fresh(n) && n.ctn == ctn && n.ct == ct
    {
      var node := new Node(ctn, ct);
      if first == null {
        first, last := node, node;
      } else {
        last.next := node;
        last := node;
      }
      elements := elements + 1;
      ghost var was := spine;
      spine := was + [node];
      forall i | 0 <= i < |spine|
        ensures Link(spine, i)
      {
        if i < |was| {
          assert old(Link(spine, i)) && spine[i] == was[i];
          if i < |was| - 1 {
            assert Apart(was, i, |was| - 1);
          }
        }
      }
      forall i, j | 0 <= i < j < |spine|
        ensures Apart(spine, i, j)
      {
        if j < |was| {
          assert Apart(was, i, j);
        }
      }
    }

    method Get(ctn: int) returns (ct: Terminal?, ghost k: nat)
      requires Valid()
      ensures IsFirst(spine, ctn, k) && ct == if k < |spine| then spine[k].ct else null
      ensures ct == null <==> forall i | 0 <= i < |spine| :: spine[i].ctn != ctn
    {
      ct := null;
      var node := first;
      k := 0;
      ghost var i := 0;
      while node != null && ct == null
        invariant 0 <= i <= |spine| && node == At(spine, i) && 0 <= k <= i
        invariant forall j | 0 <= j < k :: spine[j].ctn != ctn
        invariant if ct == null then k == i else k + 1 == i && spine[k].ctn == ctn && ct == spine[k].ct
        decreases |spine| - i
      {
        assert Link(spine, i);
        if node.ctn == ctn {
          ct := node.ct;
        } else {
          k := k + 1;
        }
        node := node.next;
        i := i + 1;
      }
    }

    /** The first node with the number is taken out of the list and freed with its terminal; no other node
        leaves the list or changes its place. */
    method Remove(ctn: int) returns (found: bool, ghost k: nat)
      requires Valid() && forall i | 0 <= i < |spine| :: !spine[i].ct.deleted
      modifies this, spine, set n | n in spine :: n.ct
      ensures Valid() && IsFirst(old(spine), ctn, k) && found == (k < |old(spine)|)
      ensures spine == if found then Without(old(spine), k) else old(spine)
      ensures found ==> old(spine)[k].freed && old(spine)[k].ct.deleted
      ensures forall i | 0 <= i < |spine| && spine[i].ct.deleted :: found && spine[i].ct == old(spine)[k].ct
      ensures forall t: Terminal | t in old(set n | n in spine :: n.ct) :: t.open == old(t.open)
    {
      var previous: Node?, current := null, first;
      k, found := 0, false;
      while current != null && !found
        invariant 0 <= k <= |spine| && current == At(spine, k)
        invariant previous == if k > 0 then spine[k - 1] else null
        invariant forall j | 0 <= j < k :: spine[j].ctn != ctn
        invariant found ==> k < |spine| && spine[k].ctn == ctn
        decreases |spine| - k, !found
      {
        assert Link(spine, k);
        if current.ctn == ctn {
          found := true;
        } else {
          previous := current;
          current := current.next;
          k := k + 1;
        }
      }
      if found {
        Unlink(previous, current, k);
      }
    }

    /** Takes the k-th node out. */
    method Unlink(previous: Node?, current: Node, ghost k: nat)
      requires Valid() && k < |spine| && current == spine[k] && previous == (if k > 0 then spine[k - 1] else null)
      requires !current.ct.deleted
      modifies this, previous, current`freed, current.ct`deleted
      ensures Valid() && spine == Without(old(spine), k) && current.freed && current.ct.deleted
    {
      ghost var was := spine;
      assert Link(was, k) && (k > 0 ==> Apart(was, 0, k)) && (k + 1 < |was| ==> Apart(was, k, |was| - 1));
      if current == first {
        first := current.next;
      } else {
        previous.next := current.next;
      }
      if current == last {
        last := previous;
      }
      current.ct.Delete();
      current.Free();
      elements := elements - 1;
      spine := Without(was, k);
      WithoutDistinct(was, k);
      WithoutAt(was, k, 0);
      forall i | 0 <= i < |spine|
        ensures Link(spine, i)
      {
        var j := Skip(k, i);
        assert old(Link(spine, j));
        WithoutAt(was, k, i + 1);
        Different(was, j, k);
        if i + 1 == k {
          assert spine[i] == previous && spine[i].next == At(was, k + 1);
        } else {
          if 0 < k {
            Different(was, j, k - 1);
          }
          assert spine[i].next == old(spine[j].next) == At(was, j + 1);
        }
      }
    }

    /** CT_List_Delete: frees every node and every terminal, each once. */
    method Delete()
      requires Valid() && Sole(spine) && forall i | 0 <= i < |spine| :: !spine[i].ct.deleted
      modifies this, spine, set n | n in spine :: n.ct
      ensures forall i | 0 <= i < |old(spine)| :: Gone(old(spine), i)
    {
      ghost var k := 0;
      while first != null
        invariant 0 <= k <= |spine| && first == At(spine, k) && spine == old(spine)
        invariant forall i | 0 <= i < k :: Gone(spine, i)
        invariant forall i | k <= i < |spine| :: Waiting(spine, i)
        decreases |spine| - k
      {
        var node := first;
        assert Waiting(spine, k);
        label Before:
        first := first.next;
        node.ct.Delete();
        node.Free();
        forall i | k < i < |spine|
          ensures Waiting(spine, i)
        {
          assert old@Before(Waiting(spine, i));
          Different(spine, k, i);
          assert OwnTerminals(spine, k, i);
        }
        forall i | 0 <= i < k
          ensures Gone(spine, i)
        {
          assert old@Before(Gone(spine, i));
        }
        k := k + 1;
      }
    }
  }

  lemma {:induction false} DifferentTerminals(nodes: seq<Node>, i: nat, j: nat)
    requires Sole(nodes) && i < |nodes| && j < |nodes| && i != j
    ensures nodes[i].ct != nodes[j].ct
  {
    assert if i < j then OwnTerminals(nodes, i, j) else OwnTerminals(nodes, j, i);
  }

  lemma {:induction false} WithoutSole(nodes: seq<Node>, k: nat)
    requires k < |nodes| && Sole(nodes)
    ensures Sole(Without(nodes, k))
  {
    var r := Without(nodes, k);
    forall i, j | 0 <= i < j < |r|
      ensures OwnTerminals(r, i, j)
    {
      assert OwnTerminals(nodes, Skip(k, i), Skip(k, j));
    }
  }

  ghost predicate Gone(nodes: seq<Node>, i: nat)
    requires i < |nodes|
    reads nodes[i], nodes[i].ct
  {
    nodes[i].freed && nodes[i].ct.deleted
  }

  ghost predicate Waiting(nodes: seq<Node>, i: nat)
    requires i < |nodes|
    reads nodes, nodes[i].ct
  {
    Link(nodes, i) && !nodes[i].ct.deleted
  }

  lemma {:induction false} Different(nodes: seq<Node>, i: nat, j: nat)
    requires Distinct(nodes) && i < |nodes| && j < |nodes| && i != j
    ensures nodes[i] != nodes[j]
  {
    assert if i < j then Apart(nodes, i, j) else Apart(nodes, j, i);
  }

  // ----- CT_init and CT_close -----

  /** The registry as a plain map from card-terminal numbers to ports. */
  type Registry = map<int, int>

  /** A call, with what the reader makes of it. */
  datatype Call = Init(ctn: int, port: int, reader: Code) | Close(ctn: int, reader: Code)

  /** What a call does to the registry. */
  function After(r: Registry, c: Call): Registry {
    match c
    case Init(ctn, port, reader) => if ctn !in r && reader == Ok then r[ctn := port] else r
    case Close(ctn, _) => r - {ctn}
  }

  /** What a call answers: a number in use cannot be opened, and one not in use cannot be closed. */
  function Answer(r: Registry, c: Call): Code {
    if (c.ctn in r) == c.Init? then ErrCt else c.reader
  }

  /** The entry of a node is in the registry. */
  predicate Entered(nodes: seq<Node>, r: Registry, i: nat)
    requires i < |nodes|
  {
    nodes[i].ctn in r && r[nodes[i].ctn] == nodes[i].ct.port
  }

  predicate Differ(nodes: seq<Node>, i: nat, j: nat)
    requires i < |nodes| && j < |nodes|
  {
    nodes[i].ctn != nodes[j].ctn
  }

  ghost predicate Has(nodes: seq<Node>, ctn: int) { exists i :: 0 <= i < |nodes| && nodes[i].ctn == ctn }

  /** The nodes hold just the entries of the registry, each number once. */
  ghost predicate Represents(nodes: seq<Node>, r: Registry) {
    && (forall i, j | 0 <= i < j < |nodes| :: Differ(nodes, i, j))
    && (forall i | 0 <= i < |nodes| :: Entered(nodes, r, i))
    && (forall ctn | ctn in r :: Has(nodes, ctn))
  }

  lemma {:induction false} AddEntry(nodes: seq<Node>, r: Registry, node: Node)
    requires Represents(nodes, r) && node.ctn !in r
    ensures Represents(nodes + [node], r[node.ctn := node.ct.port])
  {
    var all, now := nodes + [node], r[node.ctn := node.ct.port];
    forall i | 0 <= i < |nodes|
      ensures Entered(all, now, i) && Differ(all, i, |nodes|)
    {
      assert Entered(nodes, r, i);
    }
    forall i, j | 0 <= i < j < |nodes|
      ensures Differ(all, i, j)
    {
      assert Differ(nodes, i, j);
    }
    forall ctn | ctn in now
      ensures Has(all, ctn)
    {
      if ctn != node.ctn {
        assert Has(nodes, ctn);
        var i :| 0 <= i < |nodes| && nodes[i].ctn == ctn;
        assert all[i].ctn == ctn;
      } else {
        assert all[|nodes|] == node;
      }
    }
  }

  lemma {:induction false} RemoveEntry(nodes: seq<Node>, r: Registry, k: nat)
    requires Represents(nodes, r) && k < |nodes|
    ensures Represents(Without(nodes, k), r - {nodes[k].ctn})
  {
    var left, now := Without(nodes, k), r - {nodes[k].ctn};
    forall i | 0 <= i < |left|
      ensures Entered(left, now, i)
    {
      var j := Skip(k, i);
      assert Entered(nodes, r, j) && if j < k then Differ(nodes, j, k) else Differ(nodes, k, j);
    }
    forall i, j | 0 <= i < j < |left|
      ensures Differ(left, i, j)
    {
      assert Differ(nodes, Skip(k, i), Skip(k, j));
    }
    forall ctn | ctn in now
      ensures Has(left, ctn)
    {
      assert Has(nodes, ctn);
      var i :| 0 <= i < |nodes| && nodes[i].ctn == ctn;
      assert left[if i < k then i else i - 1] == nodes[i];
    }
  }

  lemma {:induction false} OnlyOne(nodes: seq<Node>, r: Registry, ctn: int, k: nat)
    requires Represents(nodes, r) && IsFirst(nodes, ctn, k)
    ensures forall i | 0 <= i < |nodes| && nodes[i].ctn == ctn :: i == k
  {
    forall i | k < i < |nodes|
      ensures nodes[i].ctn != ctn
    {
      assert Differ(nodes, k, i);
    }
  }

  lemma {:induction false} NoEntries(r: Registry)
    requires Represents([], r)
    ensures r == map[]
  {
    forall ctn
      ensures ctn !in r
    {
      assert ctn in r ==> Has([], ctn);
    }
    assert r == map[];
  }

  /** The terminal of a node is open and has not been deleted; both belong to the API. */
  ghost predicate InUse(repr: set<object>, nodes: seq<Node>, i: nat)
    requires i < |nodes|
    reads nodes[i].ct
  {
    nodes[i] in repr && nodes[i].ct in repr && nodes[i].ct.open && !nodes[i].ct.deleted
  }

  ghost predicate AllInUse(repr: set<object>, nodes: seq<Node>)
    reads set n | n in nodes :: n.ct
  {
    forall i | 0 <= i < |nodes| :: InUse(repr, nodes, i)
  }

  /** The global list of the CT-API, with the registry it stands for. */
  class Api {
    var list: List?
    ghost var open: Registry
    ghost var Repr: set<object>

    ghost predicate Valid()
      reads this, Repr
    {
      && this in Repr && (list == null ==> open == map[])
      && (list != null ==>
            && list in Repr && list.spine != [] && Sole(list.spine) && (forall n | n in list.spine :: n in Repr && n.ct in Repr)
            && list.Valid() && Represents(list.spine, open) && AllInUse(Repr, list.spine))
    }

    /** The list is null exactly if no terminal is open. */
    lemma {:induction false} NullIffNoneOpen()
      requires Valid()
      ensures list == null <==> open == map[]
    {
      assert list != null ==> Entered(list.spine, open, 0);
    }

    ghost function Nodes(): seq<Node>
      reads this, list
    {
      if list == null then [] else list.spine
    }

    constructor ()
      ensures Valid() && fresh(Repr) && open == map[]
    {
      list, open, Repr := null, map[], {this};
    }

    /** Looking a number up in the list is looking it up in the registry. */
    method Lookup(ctn: int) returns (ct: Terminal?, ghost k: nat)
      requires Valid()
      ensures ct != null <==> ctn in open
      ensures IsFirst(Nodes(), ctn, k) && (ctn in open ==> k < |Nodes()| && ct == Nodes()[k].ct && ct.port == open[ctn])
    {
      ct, k := null, 0;
      if list != null {
        ct, k := list.Get(ctn);
        assert ctn in open ==> Has(list.spine, ctn);
        assert k < |list.spine| ==> Entered(list.spine, open, k);
      }
    }

    /** CT_init. */
    method Init(ctn: int, port: int, reader: Code) returns (ret: Code)
      requires Valid()
      modifies Repr
      ensures Valid() && fresh(Repr - old(Repr))
      ensures open == After(old(open), Call.Init(ctn, port, reader)) && ret == Answer(old(open), Call.Init(ctn, port, reader))
    {
      var ct, k := Lookup(ctn);
      if ct != null {
        return ErrCt;
      }
      var terminal := new Terminal(port);
      ret := reader;
      if ret == Ok {
        terminal.open := true;
        Register(terminal, ctn);
      } else {
        terminal.Delete();
      }
    }

    /** Adds an opened terminal, to a new list if there is none. */
    method Register(terminal: Terminal, ctn: int)
      requires Valid() && terminal !in Repr && terminal.open && !terminal.deleted && ctn !in open
      modifies Repr
      ensures Valid() && fresh(Repr - old(Repr) - {terminal}) && open == old(open)[ctn := terminal.port]
    {
      var l := list;
      if l == null {
        l := new List();
        list := l;
      }
      ghost var was := l.spine;
      l.Add(terminal, ctn);
      ghost var node := l.spine[|was|];
      assert l.spine == was + [node];
      AddEntry(was, open, node);
      open := open[ctn := terminal.port];
      Repr := Repr + {l, node, terminal};
      forall i | 0 <= i < |l.spine|
        ensures InUse(Repr, l.spine, i)
      {
        assert i < |was| ==> old(InUse(Repr, was, i));
      }
      forall i, j | 0 <= i < j < |l.spine|
        ensures OwnTerminals(l.spine, i, j)
      {
        assert j < |was| ==> OwnTerminals(was, i, j);
        assert old(InUse(Repr, was, i));
      }
    }

    /** CT_close: the terminal is closed and deleted and its node freed. */
    method Close(ctn: int, reader: Code) returns (ret: Code)
      requires Valid()
      modifies Repr
      ensures Valid() && Repr == old(Repr)
      ensures open == After(old(open), Call.Close(ctn, reader)) && ret == Answer(old(open), Call.Close(ctn, reader))
      ensures forall i | 0 <= i < |old(Nodes())| && old(Nodes())[i].ctn == ctn :: Gone(old(Nodes()), i) && !old(Nodes())[i].ct.open
    {
      var ct, k := Lookup(ctn);
      if ct == null {
        forall i | 0 <= i < |Nodes()|
          ensures Nodes()[i].ctn != ctn
        {
          assert Entered(Nodes(), open, i);
        }
        return ErrCt;
      }
      ret := reader;
      ghost var was := list.spine;
      assert InUse(Repr, was, k);
      OnlyOne(was, open, ctn, k);
      label Before:
      ct.open := false;
      forall i | 0 <= i < |was|
        ensures !was[i].ct.deleted && (i == k || InUse(Repr, was, i))
      {
        assert old@Before(InUse(Repr, was, i));
        if i != k {
          DifferentTerminals(was, i, k);
        }
      }
      Unregister(ctn, k);
    }

    /** Removes a closed terminal, and the list with the last one. */
    method Unregister(ctn: int, ghost k: nat)
      requires list != null && k < |list.spine| && IsFirst(list.spine, ctn, k) && this in Repr && list in Repr
      requires forall n | n in list.spine :: n in Repr && n.ct in Repr
      requires list.Valid() && Sole(list.spine) && Represents(list.spine, open)
      requires forall i | 0 <= i < |list.spine| :: !list.spine[i].ct.deleted && (i == k || InUse(Repr, list.spine, i))
      modifies Repr
      ensures Valid() && Repr == old(Repr) && open == old(open) - {ctn}
      ensures var n := old(list.spine)[k]; Gone(old(list.spine), k) && n.ct.open == old(list.spine[k].ct.open)
    {
      ghost var was := list.spine;
      var _, j := list.Remove(ctn);
      RemoveEntry(was, open, k);
      WithoutSole(was, k);
      open := open - {ctn};
      if list.elements == 0 {
        NoEntries(open);
        list.Delete();
        list := null;
      } else {
        forall i | 0 <= i < |list.spine|
          ensures InUse(Repr, list.spine, i)
        {
          assert old(InUse(Repr, was, Skip(k, i)));
          DifferentTerminals(was, Skip(k, i), k);
        }
      }
    }

    method Do(call: Call) returns (code: Code)
      requires Valid()
      modifies Repr
      ensures Valid() && fresh(Repr - old(Repr)) && open == After(old(open), call) && code == Answer(old(open), call)
    {
      match call {
        case Init(ctn, port, reader) =>
          code := Init(ctn, port, reader);
        case Close(ctn, reader) =>
          code := Close(ctn, reader);
      }
    }

    /** Any history of calls: the list stands for the registry that the calls make, and the answers are those
        of the registry. */
    method Run(calls: seq<Call>) returns (answers: seq<Code>)
      requires Valid()
      modifies Repr
      ensures Valid() && open == AfterAll(old(open), calls, |calls|)
      ensures |answers| == |calls| && forall i | 0 <= i < |calls| :: Answered(old(open), calls, answers, i)
    {
      answers := [];
      for i := 0 to |calls|
        invariant Valid() && fresh(Repr - old(Repr)) && open == AfterAll(old(open), calls, i)
        invariant |answers| == i && forall j | 0 <= j < i :: Answered(old(open), calls, answers, j)
      {
        var code := Do(calls[i]);
        ghost var was := answers;
        answers := answers + [code];
        forall j | 0 <= j < i
          ensures Answered(old(open), calls, answers, j)
        {
          assert Answered(old(open), calls, was, j);
        }
      }
    }
  }

  /** The i-th answer is that of the registry after the calls before it. */
  predicate Answered(r: Registry, calls: seq<Call>, answers: seq<Code>, i: nat)
    requires i < |calls| && i < |answers|
  {
    answers[i] == Answer(AfterAll(r, calls, i), calls[i])
  }

  /** The registry after the first n calls. */
  function AfterAll(r: Registry, calls: seq<Call>, n: nat): Registry
    requires n <= |calls|
    decreases n
  {
    if n == 0 then r else After(AfterAll(r, calls, n - 1), calls[n - 1])
  }

  // ----- the registry by its history -----

  /** The i-th of the first n calls opened the number, and none after it closed it. */
  predicate Opens(calls: seq<Call>, n: nat, ctn: int, i: nat)
    requires i < n <= |calls|
  {
    && calls[i].Init? && calls[i].ctn == ctn && calls[i].reader == Ok
    && forall j | i < j < n :: !(calls[j].Close? && calls[j].ctn == ctn)
  }

  ghost predicate IsOpen(calls: seq<Call>, n: nat, ctn: int)
    requires n <= |calls|
  {
    exists i :: 0 <= i < n && Opens(calls, n, ctn, i)
  }

  /** A number is in the registry if and only if the reader opened it and it was not closed since. */
  lemma {:induction false} OpenIff(calls: seq<Call>, n: nat, ctn: int)
    requires n <= |calls|
    ensures ctn in AfterAll(map[], calls, n) <==> IsOpen(calls, n, ctn)
    decreases n
  {
    if n > 0 {
      var m, c := n - 1, calls[n - 1];
      OpenIff(calls, m, ctn);
      if IsOpen(calls, m, ctn) && !(c.Close? && c.ctn == ctn) {
        var i :| 0 <= i < m && Opens(calls, m, ctn, i);
        assert Opens(calls, n, ctn, i);
      }
      if IsOpen(calls, n, ctn) {
        var i :| 0 <= i < n && Opens(calls, n, ctn, i);
        assert i < m ==> Opens(calls, m, ctn, i);
      }
      assert c.Init? && c.ctn == ctn && c.reader == Ok ==> Opens(calls, n, ctn, m);
    }
  }

  /** A call is refused if it opens a number that is open or closes one that is not; otherwise the reader's code is
      returned. */
  lemma {:induction false} AnswerByHistory(calls: seq<Call>, n: nat)
    requires n < |calls|
    ensures Answer(AfterAll(map[], calls, n), calls[n]) ==
            if calls[n].Init? then if IsOpen(calls, n, calls[n].ctn) then ErrCt else calls[n].reader
            else if IsOpen(calls, n, calls[n].ctn) then calls[n].reader else ErrCt
  {
    OpenIff(calls, n, calls[n].ctn);
  }
}
