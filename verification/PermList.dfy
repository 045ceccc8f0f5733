/** The compiled mode: a group mask and a linked list of clauses, appended to through its end pointer. */
module PermList {
  import opened ModeMeaning

  class ChangedPerm {
    var mod: Modificator
    var containsCopiedPg: bool
    var flags: Bits
    var next: ChangedPerm?
    /** False once the node was handed to `free`. */
    ghost var live: bool

    /** A new node; its `next` is taken to be null, which the program does not write but relies on. */
    constructor ()
      ensures mod == MOD_UNDEF && !containsCopiedPg && flags == {} && next == null && live
    {
      mod, containsCopiedPg, flags, next, live := MOD_UNDEF, false, {}, null, true;
    }

    /** `free`: only for a node that was not freed before. */
    method Free()
      requires live
      modifies this`live
      ensures !live
    {
      live := false;
    }
  }

  class ParsedMode {
    var permGroups: Bits
    var perms: ChangedPerm?
    var endPerms: ChangedPerm?
    ghost var nodes: seq<ChangedPerm>

    constructor ()
      ensures Valid() && Holds([]) && permGroups == {} && nodes == []
    {
      permGroups, perms, endPerms, nodes := {}, null, null, [];
    }

    ghost function Successor(i: nat): ChangedPerm?
      requires i < |nodes|
      reads this
    {
      if i + 1 < |nodes| then nodes[i + 1] else null
    }

    ghost predicate Valid()
      reads this, nodes
    {
      && (forall i, j :: 0 <= i < j < |nodes| ==> nodes[i] != nodes[j])
      && perms == (if nodes == [] then null else nodes[0])
      && (nodes != [] ==> endPerms == nodes[|nodes| - 1])
      && (forall i {:trigger nodes[i].live} :: 0 <= i < |nodes| ==> nodes[i].live)
      && (forall i {:trigger nodes[i].next} :: 0 <= i < |nodes| ==> nodes[i].next == Successor(i))
    }

    /** The clauses in the list. */
    ghost predicate Holds(ps: seq<Perm>)
      reads this, nodes
    {
      && |nodes| == |ps|
      && (forall i {:trigger nodes[i].mod} :: 0 <= i < |ps| ==> nodes[i].mod == ps[i].mod)
      && (forall i {:trigger nodes[i].containsCopiedPg} :: 0 <= i < |ps| ==> nodes[i].containsCopiedPg == ps[i].copied)
      && (forall i {:trigger nodes[i].flags} :: 0 <= i < |ps| ==> nodes[i].flags == ps[i].flags)
    }

    /** Forgets the list without freeing it. */
    method Reset()
      modifies this
      ensures Valid() && Holds([]) && permGroups == {} && nodes == []
    {
      permGroups, perms, nodes := {}, null, [];
    }

    method AddChangedPerm(ghost ps: seq<Perm>)
      requires Valid() && Holds(ps)
      modifies this`perms, this`endPerms, this`nodes, nodes`next
      ensures Valid() && Holds(ps + [Perm(MOD_UNDEF, false, {})])
      ensures nodes == old(nodes) + [nodes[|ps|]] && fresh(nodes[|ps|])
    {
      var fresh' := new ChangedPerm();
      if perms == null {
        perms := fresh';
      } else {
        endPerms.next := fresh';
      }
      endPerms := fresh';
      nodes := nodes + [fresh'];
    }

    /** Writes the fields of the last clause. */
    method SetLast(p: Perm, ghost before: seq<Perm>, ghost last: Perm)
      requires Valid() && Holds(before + [last])
      modifies endPerms
      ensures Valid() && Holds(before + [p])
    {
      assert endPerms == nodes[|before|];
      endPerms.mod, endPerms.containsCopiedPg, endPerms.flags := p.mod, p.copied, p.flags;
    }

    /** A new clause at the end of the list, with its sign. */
    method AddClause(mod: Modificator, ghost ps: seq<Perm>)
      requires Valid() && Holds(ps)
      modifies this`perms, this`endPerms, this`nodes, nodes`next
      ensures Valid() && Holds(ps + [Perm(mod, false, {})])
      ensures |nodes| == |ps| + 1 && nodes == old(nodes) + [nodes[|ps|]] && fresh(nodes[|ps|])
    {
      AddChangedPerm(ps);
      SetLast(Perm(mod, false, {}), ps, Perm(MOD_UNDEF, false, {}));
    }

    /** Frees the list. */
    method ClearChangedPerm()
      requires Valid()
      modifies this, nodes`live
      ensures Valid() && Holds([]) && nodes == []
      ensures forall n :: n in old(nodes) ==> !n.live
      ensures permGroups == old(permGroups)
    {
      var l := perms;
      ghost var k := 0;
      while l != null
        invariant 0 <= k <= |nodes| && l == if k < |nodes| then nodes[k] else null
        invariant forall j {:trigger nodes[j].live} :: 0 <= j < |nodes| ==> (nodes[j].live <==> k <= j)
        invariant nodes == old(nodes) && permGroups == old(permGroups)
        decreases |nodes| - k
      {
        assert l.next == Successor(k);
        var n := l.next;
        l.Free();
        l, k := n, k + 1;
      }
      perms, endPerms, nodes := null, null, [];
    }

    /** The bits a clause stands for, before the chosen groups narrow them. */
    static method MaskOf(i: ChangedPerm) returns (pmask: Bits)
      ensures pmask == PermMask(Perm(i.mod, i.containsCopiedPg, i.flags))
    {
      pmask := {};
      if i.containsCopiedPg {
        if PG_OTHERS in i.flags {
          pmask := pmask + S_IRWXO;
        }
        if PG_GROUP in i.flags {
          pmask := pmask + S_IRWXG;
        }
        if PG_USER in i.flags {
          pmask := pmask + S_IRWXU;
        }
      } else {
        if P_READ in i.flags {
          pmask := pmask + S_READ;
        }
        if P_WRITE in i.flags {
          pmask := pmask + S_WRITE;
        }
        if P_EXEC in i.flags {
          pmask := pmask + S_EXEC;
        }
      }
      assert pmask == PermMask(Perm(i.mod, i.containsCopiedPg, i.flags));
    }

    /** The bits of the chosen groups. An empty choice is replaced by `a`, for good. */
    method ChosenMask() returns (bmask: Bits)
      modifies this`permGroups
      ensures bmask == GroupMask(old(permGroups)) && GroupMask(permGroups) == GroupMask(old(permGroups))
    {
      bmask := {};
      if permGroups == {} {
        permGroups := permGroups + {PG_ALL};
        assert permGroups == {PG_ALL};
      }
      if PG_OTHERS in permGroups {
        bmask := bmask + S_IRWXO;
      }
      if PG_GROUP in permGroups {
        bmask := bmask + S_IRWXG;
      }
      if PG_USER in permGroups {
        bmask := bmask + S_IRWXU;
      }
      if PG_ALL in permGroups {
        bmask := bmask + S_IRWXO;
        bmask := bmask + S_IRWXG;
        bmask := bmask + S_IRWXU;
      }
      assert bmask == GroupMask(old(permGroups));
    }

    /** The interpreter: folds the list over a mode. */
    method ApplyModes(initialMode: Bits, ghost ps: seq<Perm>) returns (mode: Bits)
      requires Valid() && Holds(ps)
      modifies this`permGroups
      ensures mode == ApplyPerms(ps, GroupMask(old(permGroups)), initialMode)
      ensures GroupMask(permGroups) == GroupMask(old(permGroups)) && Valid() && Holds(ps)
    {
      var bmask := ChosenMask();
      mode := initialMode;
      var i := perms;
      ghost var k, groups := 0, permGroups;
      while i != null
        invariant 0 <= k <= |nodes| && i == if k < |nodes| then nodes[k] else null
        invariant mode == ApplyPerms(ps[..k], bmask, initialMode) && permGroups == groups
        decreases |nodes| - k
      {
        assert i.next == Successor(k);
        ghost var p := Perm(i.mod, i.containsCopiedPg, i.flags);
        assert p == ps[k];
        assert ps[..k + 1] == ps[..k] + [ps[k]];
        var pmask := MaskOf(i);
        pmask := pmask * bmask;
        if i.mod == MOD_APPEND {
          mode := mode + pmask;
        } else if i.mod == MOD_ERASE {
          mode := mode - pmask;
        }
        i, k := i.next, k + 1;
      }
      assert ps[..k] == ps;
    }
  }
}
