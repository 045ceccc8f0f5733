/** The in-memory header: a linked list of records ending in an `eof` sentinel, edited in place. */
module HeaderList {
  import opened Bytes
  import opened FileInfos

  class FiNode {
    var data: FileInfo
    var next: FiNode?
    var eof: bool
    /** False once the node was handed to `free`. */
    ghost var live: bool

    /** `memory` is whatever `malloc` returned: the code leaves `data` unwritten. */
    constructor (memory: FileInfo)
      ensures data == memory && next == null && eof && live
    {
      data, next, eof, live := memory, null, true, true;
    }

    /** The stack node put in front of a list while it is filtered; its `data` is never written. */
    constructor Fictive(memory: FileInfo, first: FiNode)
      ensures data == memory && next == first && !eof && live
    {
      data, next, eof, live := memory, first, false, true;
    }

    /** `free`: only for a node that was not freed before. */
    method Free()
      requires live
      modifies this`live
      ensures !live
    {
      live := false;
    }
  }

  ghost function Successor(nodes: seq<FiNode>, i: nat, end: FiNode?): FiNode?
    requires i < |nodes|
  {
    if i + 1 < |nodes| then nodes[i + 1] else end
  }

  ghost predicate Distinct(nodes: seq<FiNode>) {
    forall i, j :: 0 <= i < j < |nodes| ==> nodes[i] != nodes[j]
  }

  /** `nodes` are linked in order, pairwise distinct and allocated; the last one, and only it, is the
      `eof` sentinel. */
  ghost predicate IsList(head: FiNode, nodes: seq<FiNode>)
    reads nodes
  {
    && 0 < |nodes| && nodes[0] == head
    && Distinct(nodes)
    && (forall i :: 0 <= i < |nodes| ==> nodes[i].live)
    && (forall i :: 0 <= i < |nodes| ==> (nodes[i].eof <==> i == |nodes| - 1))
    && (forall i {:trigger nodes[i].next} :: 0 <= i < |nodes| ==> nodes[i].next == Successor(nodes, i, null))
  }

  /** The records held by the nodes in front of the sentinel. */
  ghost predicate Holds(nodes: seq<FiNode>, infos: seq<FileInfo>)
    reads nodes
  {
    && |nodes| == |infos| + 1
    && forall i {:trigger nodes[i].data} :: 0 <= i < |infos| ==> nodes[i].data == infos[i]
  }

  /** The list grew out of the single node `head`. */
  twostate predicate Grown(head: FiNode, new nodes: seq<FiNode>) {
    nodes != [] && nodes[0] == head && forall j :: 0 < j < |nodes| ==> fresh(nodes[j])
  }

  ghost predicate Header(head: FiNode, nodes: seq<FiNode>, infos: seq<FileInfo>)
    reads nodes
  {
    IsList(head, nodes) && Holds(nodes, infos)
  }

  /** Turns the sentinel into a data node and links a new sentinel behind it. */
  method MakeNewNode(h: FiNode, memory: FileInfo, ghost nodes: seq<FiNode>, ghost infos: seq<FileInfo>)
    returns (i: FiNode, ghost nodes': seq<FiNode>)
    requires Header(h, nodes, infos)
    modifies {nodes[|nodes| - 1]}
    ensures i == nodes[|nodes| - 1] && i.data == old(i.data)
    ensures |nodes'| == |nodes| + 1 && nodes' == nodes + [nodes'[|nodes|]]
    ensures fresh(nodes'[|nodes|]) && nodes'[|nodes|].data == memory
    ensures Header(h, nodes', infos + [i.data])
  {
    i := h;
    ghost var k := 0;
    while !i.eof
      invariant 0 <= k < |nodes| && i == nodes[k]
      decreases |nodes| - k
    {
      assert nodes[k].next == nodes[k + 1];
      i := i.next;
      k := k + 1;
    }
    var sentinel := new FiNode(memory);
    i.next := sentinel;
    i.eof := false;
    nodes' := nodes + [sentinel];
  }

  /** Writes the record of the last data node. */
  method FillNode(info: FiNode, data: FileInfo, ghost h: FiNode, ghost nodes: seq<FiNode>, ghost before: seq<FileInfo>)
    requires Header(h, nodes, before + [info.data]) && info == nodes[|before|]
    modifies info`data
    ensures Header(h, nodes, before + [data])
  {
    info.data := data;
  }

  /** A new node at the end of the list with the given record. */
  method AppendInfo(h: FiNode, data: FileInfo, memory: FileInfo, ghost nodes: seq<FiNode>, ghost infos: seq<FileInfo>)
    returns (n: FiNode, ghost nodes': seq<FiNode>)
    requires Header(h, nodes, infos)
    modifies {nodes[|infos|]}
    ensures Header(h, nodes', infos + [data]) && n == nodes[|infos|]
    ensures |nodes'| == |nodes| + 1 && nodes' == nodes + [nodes'[|nodes|]] && fresh(nodes'[|nodes|])
  {
    n, nodes' := MakeNewNode(h, memory, nodes, infos);
    FillNode(n, data, h, nodes', infos);
  }

  /** Unlinks and frees the node after `to`, unless `to` or the list head is a sentinel. */
  method RemoveNode(h: FiNode, to: FiNode) returns (code: int)
    requires !h.eof && !to.eof ==> to.next != null && to.next != to && to.next.live
    modifies to`next, (if to.next == null then {} else {to.next})`live
    ensures code == if h.eof || to.eof then -1 else 0
    ensures code == -1 ==> to.next == old(to.next) && (to.next != null ==> to.next.live == old(to.next.live))
    ensures code == 0 ==> to.next == old(to.next.next) && !old(to.next).live
  {
    if h.eof || to.eof {
      return -1;
    }
    var toDelete := to.next;
    to.next := to.next.next;
    toDelete.Free();
    return 0;
  }

  /** The nodes an in-place filter leaves in the list, in their order, and the sentinel. */
  ghost function Survivors(nodes: seq<FiNode>, keep: seq<bool>): seq<FiNode>
    requires |nodes| == |keep| + 1
  {
    Marked(nodes[..|keep|], keep) + [nodes[|keep|]]
  }

  /** The positions of the survivors from position `from` on, the sentinel's included. */
  ghost function Positions(keep: seq<bool>, from: nat): (s: seq<nat>)
    requires from <= |keep|
    decreases |keep| - from
  {
    if from == |keep| then [from]
    else if keep[from] then [from] + Positions(keep, from + 1)
    else Positions(keep, from + 1)
  }

  /** The first survivor from position `from` on. */
  ghost function NextKept(keep: seq<bool>, from: nat): (k: nat)
    requires from <= |keep|
    ensures from <= k <= |keep|
    decreases |keep| - from
  {
    if from == |keep| || keep[from] then from else NextKept(keep, from + 1)
  }

  lemma {:induction false} NextKeptIs(keep: seq<bool>, from: nat, k: nat)
    requires from <= k <= |keep| && (k < |keep| ==> keep[k])
    requires forall j :: from <= j < k ==> !keep[j]
    ensures NextKept(keep, from) == k
    decreases k - from
  {
    if from < k {
      NextKeptIs(keep, from + 1, k);
    }
  }

  /** Survivors are in increasing order and end with the sentinel. */
  lemma {:induction false} PositionsOrdered(keep: seq<bool>, from: nat)
    requires from <= |keep|
    ensures var s := Positions(keep, from);
      && s != [] && s[0] == NextKept(keep, from)
      && (forall a :: 0 <= a < |s| ==> from <= s[a] <= |keep| && (s[a] == |keep| <==> a == |s| - 1))
      && (forall a, b :: 0 <= a < b < |s| ==> s[a] < s[b])
    decreases |keep| - from
  {
    if from < |keep| {
      PositionsOrdered(keep, from + 1);
      if keep[from] {
        assert Positions(keep, from) == [from] + Positions(keep, from + 1);
      }
    }
  }

  /** Each survivor but the last is marked, and its successor is the next survivor. */
  lemma {:induction false} PositionsLinked(keep: seq<bool>, from: nat, a: nat)
    requires from <= |keep| && a + 1 < |Positions(keep, from)|
    ensures var s := Positions(keep, from); s[a] < |keep| && keep[s[a]] && s[a + 1] == NextKept(keep, s[a] + 1)
    decreases |keep| - from
  {
    if from < |keep| {
      if !keep[from] {
        PositionsLinked(keep, from + 1, a);
      } else if a > 0 {
        PositionsLinked(keep, from + 1, a - 1);
      } else {
        PositionsOrdered(keep, from + 1);
      }
    }
  }

  lemma {:induction false} PositionsHave(keep: seq<bool>, from: nat, j: nat)
    requires from <= j <= |keep| && (j < |keep| ==> keep[j])
    ensures j in Positions(keep, from)
    decreases |keep| - from
  {
    if from < j {
      PositionsHave(keep, from + 1, j);
    }
  }

  /** The marked elements are the elements at the survivors' positions. */
  lemma {:induction false} MarkedAtPositions<T>(s: seq<T>, keep: seq<bool>, from: nat)
    requires from <= |s| == |keep|
    ensures |Marked(s[from..], keep[from..])| == |Positions(keep, from)| - 1
    ensures forall a :: 0 <= a < |Marked(s[from..], keep[from..])| ==>
      Positions(keep, from)[a] < |s| && Marked(s[from..], keep[from..])[a] == s[Positions(keep, from)[a]]
    decreases |s| - from
  {
    if from < |s| {
      MarkedAtPositions(s, keep, from + 1);
      assert s[from..][1..] == s[from + 1..] && keep[from..][1..] == keep[from + 1..];
    }
  }

  /** The list while `done` of its nodes were looked at; `p` is the position of the last survivor among
      them, -1 for the fictive node. Survivors before it are linked to the next survivor, the dropped nodes
      are freed, the nodes not yet looked at are as they were. */
  ghost predicate Filtering(fictive: FiNode, i: FiNode, nodes: seq<FiNode>, keep: seq<bool>, p: int, done: nat)
    requires |nodes| == |keep| + 1 && done <= |keep|
    reads fictive, nodes, i
  {
    && -1 <= p < done && (p >= 0 ==> keep[p])
    && (forall j :: p < j < done ==> !keep[j])
    && i == (if p < 0 then fictive else nodes[p]) && i.live && !i.eof && i.next == nodes[done]
    && fictive.live && !fictive.eof && fictive.next == nodes[if p < 0 then done else NextKept(keep, 0)]
    && (forall j {:trigger nodes[j].next} :: 0 <= j < p && keep[j] ==> nodes[j].next == nodes[NextKept(keep, j + 1)])
    && (forall j :: 0 <= j < done ==> (nodes[j].live <==> keep[j]))
    && (forall j :: 0 <= j < done ==> !nodes[j].eof)
    && (forall j :: done <= j < |nodes| ==> nodes[j].live && (nodes[j].eof <==> j == |nodes| - 1))
    && (forall j {:trigger nodes[j].next} :: done <= j < |nodes| ==> nodes[j].next == Successor(nodes, j, null))
  }

  lemma {:induction false} SurvivorAt(nodes: seq<FiNode>, keep: seq<bool>)
    requires |nodes| == |keep| + 1
    ensures |Survivors(nodes, keep)| == |Positions(keep, 0)|
    ensures forall a :: 0 <= a < |Positions(keep, 0)| ==>
      Positions(keep, 0)[a] < |nodes| && Survivors(nodes, keep)[a] == nodes[Positions(keep, 0)[a]]
  {
    var data := nodes[..|keep|];
    assert data[0..] == data && keep[0..] == keep;
    PositionsOrdered(keep, 0);
    MarkedAtPositions(data, keep, 0);
  }

  /** Survivors are nodes of the list. */
  lemma {:induction false} SurvivorsAmong(nodes: seq<FiNode>, keep: seq<bool>, a: nat)
    requires |nodes| == |keep| + 1 && a < |Survivors(nodes, keep)|
    ensures exists j :: 0 <= j < |nodes| && nodes[j] == Survivors(nodes, keep)[a]
  {
    SurvivorAt(nodes, keep);
    assert nodes[Positions(keep, 0)[a]] == Survivors(nodes, keep)[a];
  }

  lemma {:induction false} FilterDoneLinks(fictive: FiNode, i: FiNode, nodes: seq<FiNode>, keep: seq<bool>, p: int,
                                           a: nat)
    requires |nodes| == |keep| + 1
    requires Filtering(fictive, i, nodes, keep, p, |keep|)
    requires a < |Survivors(nodes, keep)|
    ensures var n := Survivors(nodes, keep)[a];
      && n.live && (n.eof <==> a == |Survivors(nodes, keep)| - 1)
      && n.next == Successor(Survivors(nodes, keep), a, null)
  {
    var s := Positions(keep, 0);
    SurvivorAt(nodes, keep);
    PositionsOrdered(keep, 0);
    if a + 1 < |s| {
      PositionsLinked(keep, 0, a);
      if s[a] == p {
        NextKeptIs(keep, p + 1, |keep|);
      }
    }
  }

  lemma {:induction false} FilterDone(fictive: FiNode, i: FiNode, nodes: seq<FiNode>, keep: seq<bool>, p: int)
    requires |nodes| == |keep| + 1 && Distinct(nodes)
    requires Filtering(fictive, i, nodes, keep, p, |keep|)
    ensures fictive.next != null && IsList(fictive.next, Survivors(nodes, keep))
    ensures forall n :: n in nodes ==> (n.live <==> n in Survivors(nodes, keep))
  {
    var s, survivors := Positions(keep, 0), Survivors(nodes, keep);
    SurvivorAt(nodes, keep);
    PositionsOrdered(keep, 0);
    if p < 0 {
      NextKeptIs(keep, 0, |keep|);
    }
    forall a | 0 <= a < |survivors|
      ensures survivors[a].live && (survivors[a].eof <==> a == |survivors| - 1)
      ensures survivors[a].next == Successor(survivors, a, null)
    {
      FilterDoneLinks(fictive, i, nodes, keep, p, a);
    }
    forall j | 0 <= j < |nodes| && nodes[j].live
      ensures nodes[j] in survivors
    {
      PositionsHave(keep, 0, j);
      var a :| 0 <= a < |s| && s[a] == j;
      assert survivors[a] == nodes[j];
    }
  }

  /** Data follows the nodes. */
  lemma {:induction false} SurvivorsHold(nodes: seq<FiNode>, infos: seq<FileInfo>, keep: seq<bool>)
    requires Holds(nodes, infos) && |keep| == |infos|
    ensures Holds(Survivors(nodes, keep), Marked(infos, keep))
  {
    var data := nodes[..|keep|];
    MarkedAtPositions(data, keep, 0);
    MarkedAtPositions(infos, keep, 0);
    assert data[0..] == data && keep[0..] == keep && infos[0..] == infos;
  }

  lemma {:induction false} FilterStart(fictive: FiNode, nodes: seq<FiNode>, keep: seq<bool>)
    requires |nodes| == |keep| + 1 && IsList(nodes[0], nodes)
    requires fictive.live && !fictive.eof && fictive.next == nodes[0]
    ensures Filtering(fictive, fictive, nodes, keep, -1, 0)
  {
  }

  lemma {:induction false} KeepNext(fictive: FiNode, i: FiNode, nodes: seq<FiNode>, keep: seq<bool>, p: int, done: nat)
    requires |nodes| == |keep| + 1 && done < |keep| && keep[done]
    requires Filtering(fictive, i, nodes, keep, p, done)
    ensures Filtering(fictive, nodes[done], nodes, keep, done, done + 1)
  {
    NextKeptIs(keep, p + 1, done);
  }

  method DropNext(fictive: FiNode, i: FiNode, ghost nodes: seq<FiNode>, ghost keep: seq<bool>, ghost p: int,
                  ghost done: nat)
    requires |nodes| == |keep| + 1 && done < |keep| && !keep[done] && Distinct(nodes) && fictive !in nodes
    requires Filtering(fictive, i, nodes, keep, p, done)
    modifies i`next, {nodes[done]}`live
    ensures Filtering(fictive, i, nodes, keep, p, done + 1)
  {
    assert forall j :: 0 <= j < |nodes| && j != p ==> nodes[j] != i;
    var _ := RemoveNode(fictive, i);
  }

  /** `keep` tells for every data node whether the filter keeps it. */
  ghost predicate Decided(nodes: seq<FiNode>, keep: seq<bool>, names: seq<Path>, drop: bool)
    reads nodes
  {
    && |nodes| == |keep| + 1
    && forall j {:trigger nodes[j].data} :: 0 <= j < |keep| ==> (keep[j] <==> Keeps(nodes[j].data, names, drop))
  }

  /** One round of the filter: compares the next name with every given one, then either unlinks and frees
      the node, leaving `i` where it is, or moves on to it. */
  method FilterStep(fictive: FiNode, i: FiNode, fnames: seq<Path>, drop: bool, ghost nodes: seq<FiNode>,
                    ghost keep: seq<bool>, ghost p: int, ghost done: nat)
    returns (i': FiNode, ghost p': int)
    requires |nodes| == |keep| + 1 && done < |keep| && Distinct(nodes) && fictive !in nodes
    requires Filtering(fictive, i, nodes, keep, p, done)
    requires keep[done] <==> Keeps(nodes[done].data, fnames, drop)
    modifies i`next, {nodes[done]}`live
    ensures Filtering(fictive, i', nodes, keep, p', done + 1)
  {
    var name := CString(i.next.data.filename);
    var isThere := false;
    for j := 0 to |fnames|
      invariant isThere <==> exists t :: 0 <= t < j && fnames[t] == name
    {
      isThere := isThere || name == fnames[j];
    }
    assert isThere <==> name in fnames;
    if if drop then isThere else !isThere {
      DropNext(fictive, i, nodes, keep, p, done);
      return i, p;
    }
    KeepNext(fictive, i, nodes, keep, p, done);
    return i.next, done;
  }

  /** The filter loop. A deletion does not advance `i`; the loop ends all the same. */
  method FilterNodes(header: FiNode, fnames: seq<Path>, drop: bool, ghost nodes: seq<FiNode>, ghost keep: seq<bool>)
    returns (header': FiNode, ghost fictive: FiNode, ghost last: FiNode, ghost p: int)
    requires IsList(header, nodes) && Decided(nodes, keep, fnames, drop)
    modifies nodes`next, nodes`live
    ensures Filtering(fictive, last, nodes, keep, p, |keep|) && header' == fictive.next
  {
    header' := header;
    var front := new FiNode.Fictive(header.data, header);
    var i: FiNode := front;
    ghost var done := 0;
    p := -1;
    FilterStart(front, nodes, keep);
    while !i.next.eof
      invariant 0 <= done <= |keep| && Decided(nodes, keep, fnames, drop)
      invariant Filtering(front, i, nodes, keep, p, done)
      invariant i.next == nodes[done] && header' == front.next
      decreases |keep| - done
    {
      i, p := FilterStep(front, i, fnames, drop, nodes, keep, p, done);
      header' := front.next;
      done := done + 1;
    }
    fictive, last := front, i;
  }

  /** Filters the list in place: survivors keep their order and data, and exactly the dropped nodes are
      freed. */
  method RemoveFilesFromHeader(header: FiNode, fnames: seq<Path>, drop: bool, ghost nodes: seq<FiNode>,
                               ghost infos: seq<FileInfo>)
    returns (header': FiNode)
    requires Header(header, nodes, infos)
    modifies nodes`next, nodes`live
    ensures Header(header', Survivors(nodes, Marks(infos, fnames, drop)), Select(infos, fnames, drop))
    ensures forall n :: n in nodes ==> (n.live <==> n in Survivors(nodes, Marks(infos, fnames, drop)))
  {
    ghost var keep := Marks(infos, fnames, drop);
    forall j | 0 <= j < |infos|
      ensures keep[j] <==> Keeps(nodes[j].data, fnames, drop)
    {
      MarkAt(infos, fnames, drop, j);
    }
    ghost var fictive, last, p;
    header', fictive, last, p := FilterNodes(header, fnames, drop, nodes, keep);
    FilterDone(fictive, last, nodes, keep, p);
    SurvivorsHold(nodes, infos, keep);
  }

  method CountNodes(header: FiNode, ghost nodes: seq<FiNode>) returns (total: nat)
    requires IsList(header, nodes)
    ensures total == |nodes| - 1
  {
    total := 0;
    var i := header;
    while !i.eof
      invariant 0 <= total < |nodes| && i == nodes[total]
      decreases |nodes| - total
    {
      assert i.next == nodes[total + 1];
      i, total := i.next, total + 1;
    }
  }

  /** `sums` are the prefix sums of the sizes, `after` the records with the offsets that follow from them. */
  ghost predicate Planned(infos: seq<FileInfo>, off: nat, sums: seq<nat>, after: seq<FileInfo>) {
    && |sums| == |infos| + 1 && |after| == |infos| && sums[0] == 0
    && (forall j {:trigger after[j]} :: 0 <= j < |infos| ==> after[j] == infos[j].(offset := Wrap(off + sums[j])))
    && (forall j {:trigger after[j]} :: 0 <= j < |infos| ==> sums[j + 1] == sums[j] + infos[j].filesize)
  }

  lemma {:induction false} OffsetPlan(infos: seq<FileInfo>, off: nat)
    ensures Planned(infos, off, Sums(infos, 0), WithOffsets(infos, off))
  {
    forall j | 0 <= j < |infos|
      ensures WithOffsets(infos, off)[j] == infos[j].(offset := Wrap(off + Sums(infos, 0)[j]))
      ensures Sums(infos, 0)[j + 1] == Sums(infos, 0)[j] + infos[j].filesize
    {
      OffsetIsPrefixSum(infos, off, 0, j);
    }
  }

  /** The second pass of `UpdateOffsets`: accumulates the sizes. */
  method AssignOffsets(header: FiNode, off: nat, ghost nodes: seq<FiNode>, ghost infos: seq<FileInfo>,
                       ghost sums: seq<nat>, ghost after: seq<FileInfo>)
    requires Header(header, nodes, infos) && Planned(infos, off, sums, after)
    modifies nodes`data
    ensures Header(header, nodes, after)
  {
    var rawOff: uint64 := 0;
    var i := header;
    ghost var k := 0;
    while !i.eof
      invariant 0 <= k < |nodes| && i == nodes[k] && IsList(header, nodes)
      invariant rawOff == Wrap(sums[k])
      invariant forall j {:trigger nodes[j].data} :: 0 <= j < k ==> nodes[j].data == after[j]
      invariant forall j {:trigger nodes[j].data} :: k <= j < |infos| ==> nodes[j].data == infos[j]
      decreases |nodes| - k
    {
      assert i.next == nodes[k + 1];
      WrapSum(sums[k], off);
      WrapSum(sums[k], infos[k].filesize);
      assert after[k] == infos[k].(offset := Wrap(off + rawOff));
      i.data := i.data.(offset := Wrap(off + rawOff));
      rawOff := Wrap(rawOff + i.data.filesize);
      i, k := i.next, k + 1;
    }
  }

  /** Recomputes every offset: one pass counts the records, a second one accumulates the sizes. */
  method UpdateOffsets(header: FiNode, ghost nodes: seq<FiNode>, ghost infos: seq<FileInfo>)
    requires Header(header, nodes, infos)
    modifies nodes`data
    ensures Header(header, nodes, WithOffsets(infos, DataStart(|infos|)))
  {
    var total := CountNodes(header, nodes);
    OffsetPlan(infos, DataStart(total));
    AssignOffsets(header, DataStart(total), nodes, infos, Sums(infos, 0), WithOffsets(infos, DataStart(total)));
  }

  /** Frees a whole list, sentinel included. */
  method FreeList(header: FiNode, ghost nodes: seq<FiNode>)
    requires IsList(header, nodes)
    modifies nodes`live
    ensures forall n :: n in nodes ==> !n.live
  {
    var i: FiNode? := header;
    ghost var k := 0;
    while i != null
      invariant 0 <= k <= |nodes| && i == if k < |nodes| then nodes[k] else null
      invariant forall j :: 0 <= j < |nodes| ==> (nodes[j].live <==> k <= j)
      decreases |nodes| - k
    {
      assert i.next == Successor(nodes, k, null);
      var d := i.next;
      i.Free();
      i, k := d, k + 1;
    }
  }
}
