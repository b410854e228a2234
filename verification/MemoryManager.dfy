/**
 The routines of `mm.c` as the kernel runs them, in place, each proved against the
 function of `PagingModel` that says what it does. A routine that returns `false` has
 stopped the kernel.
 */
module MemoryManager {
  import opened Common
  import M = PagingModel

  class MemoryManager {
    var count: seq<nat>
    var free: seq<nat>
    var page: seq<Page>
    var pds: map<nat, M.Pd>
    var disk: seq<Page>
    var lastUnused: nat

    ghost function State(): M.Mem
      reads this
    {
      M.Mem(count, free, page, pds, disk, lastUnused)
    }

    ghost predicate Valid()
      reads this
    {
      M.Wf(State())
    }

    /** `*pte = e`. */
    method WritePte(pid: nat, v: nat, e: M.Pte)
      requires M.UserPage(State(), pid, v)
      modifies this`pds
      ensures State() == M.SetPte(old(State()), pid, v, e)
    {
      pds := pds[pid := pds[pid][v := e]];
    }

    method ReturnPage(f: nat)
      requires f < |count|
      modifies this`count, this`free
      ensures State() == M.ReturnPage(old(State()), f)
    {
      if count[f] > 0 {
        count := count[f := count[f] - 1];
        if count[f] == 0 {
          free := M.InsertAfterHead(free, f);
        }
      }
    }

    method TakeFreePage() returns (f: nat)
      requires Valid() && free != []
      modifies this`count, this`free
      ensures State() == M.TakeFree(old(State())) && f == old(free[0])
    {
      f := free[0];
      count := count[f := count[f] + 1];
      free := free[1..];
    }

    method SeekUnusedVaddr(pid: nat) returns (a: Option<nat>)
      requires Valid() && pid in pds
      modifies this`lastUnused
      ensures a == M.FirstInvalid(old(pds[pid]), old(lastUnused))
      ensures State() == M.Seek(old(State()), pid)
    {
      var vaddr := lastUnused;
      while vaddr != M.V_PAGES
        invariant lastUnused == old(lastUnused) <= vaddr <= M.V_PAGES
        invariant M.FirstInvalid(pds[pid], lastUnused) == M.FirstInvalid(pds[pid], vaddr)
        decreases M.V_PAGES - vaddr
      {
        if pds[pid][vaddr].Invalid? {
          lastUnused := vaddr;
          return Some(vaddr);
        }
        vaddr := vaddr + 1;
      }
      return None;
    }

    method GetVictimVaddr(pid: nat) returns (a: Option<nat>)
      requires Valid() && pid in pds
      ensures a == M.LastAssigned(pds[pid], M.STACK_PAGE)
    {
      var vaddr := M.STACK_PAGE - 1;
      while vaddr != M.KERNEL_LIMIT
        invariant M.KERNEL_LIMIT <= vaddr < M.STACK_PAGE
        invariant M.LastAssigned(pds[pid], M.STACK_PAGE) == M.LastAssigned(pds[pid], vaddr + 1)
      {
        var pte := pds[pid][vaddr];
        if pte.Present? && pte.kind.Assigned? {
          return Some(vaddr);
        }
        vaddr := vaddr - 1;
      }
      return None;
    }

    method SwapPageOut(pid: nat) returns (ok: bool)
      requires Valid() && pid in pds
      modifies this
      ensures ok <==> M.SwapOut(old(State()), pid).Ok?
      ensures ok ==> State() == M.SwapOut(old(State()), pid).m
    {
      var victim := GetVictimVaddr(pid);
      if victim.None? || |disk| >= M.SWAP_SLOTS {
        return false;
      }
      var f := pds[pid][victim.value].frame;
      var id := |disk|;
      disk := disk + [page[f]];
      ReturnPage(f);
      WritePte(pid, victim.value, M.Swapped(id));
      ok := true;
    }

    method NewUserPage(pid: nat, v: nat) returns (ok: bool)
      requires Valid() && M.UserPage(State(), pid, v)
      modifies this
      ensures ok <==> M.NewUserPage(old(State()), pid, v).Ok?
      ensures ok ==> State() == M.NewUserPage(old(State()), pid, v).m && Valid()
    {
      if |free| < M.LOW_WATER {
        ok := SwapPageOut(pid);
        if !ok {
          return;
        }
      }
      if free == [] {
        return false;
      }
      if pds[pid][v].Present? {
        return false;
      }
      var f := TakeFreePage();
      WritePte(pid, v, M.Present(f, M.Assigned, true));
      ok := true;
    }

    method RequestMemAlloc(pid: nat) returns (a: Option<nat>)
      requires Valid() && pid in pds
      modifies this
      ensures a.Some? <==> M.RequestPage(old(State()), pid).Ok?
      ensures a.Some? ==> State() == M.RequestPage(old(State()), pid).m
      ensures a == M.FirstInvalid(old(pds[pid]), old(lastUnused))
    {
      a := SeekUnusedVaddr(pid);
      if a.Some? {
        WritePte(pid, a.value, M.Requested);
      }
    }

    method ClonePte(pid: nat, a: nat, f: nat) returns (ok: bool)
      requires Valid() && M.UserPage(State(), pid, a) && f < |count|
      modifies this
      ensures ok <==> M.ClonePage(old(State()), pid, a, f).Ok?
      ensures ok ==> State() == M.ClonePage(old(State()), pid, a, f).m && Valid()
    {
      ok := NewUserPage(pid, a);
      if ok {
        page := page[pds[pid][a].frame := page[f]];
      }
    }

    method LoadCowPage(pid: nat, v: nat) returns (ok: bool)
      requires Valid() && M.UserPage(State(), pid, v) && pds[pid][v].Present?
      modifies this
      ensures ok <==> M.LoadCow(old(State()), pid, v).Ok?
      ensures ok ==> State() == M.LoadCow(old(State()), pid, v).m && Valid()
    {
      ghost var before := State();
      assert M.WfPd(State(), pds[pid]) && M.WfPte(State(), v, pds[pid][v]);
      var f := pds[pid][v].frame;
      var a := SeekUnusedVaddr(pid);
      if count[f] > 1 {
        if a.None? {
          return false;
        }
        ok := ClonePte(pid, a.value, f);
        if ok {
          var e := pds[pid][a.value];
          WritePte(pid, a.value, M.Invalid);
          WritePte(pid, v, e);
          ReturnPage(f);
          assert State() == M.LoadCow(before, pid, v).m;
        }
      } else {
        WritePte(pid, v, M.Present(f, M.Assigned, true));
        ok := true;
      }
    }

    method SwapPageIn(pid: nat, v: nat) returns (ok: bool)
      requires Valid() && M.UserPage(State(), pid, v) && pds[pid][v].Swapped?
      modifies this
      ensures ok <==> M.SwapIn(old(State()), pid, v).Ok?
      ensures ok ==> State() == M.SwapIn(old(State()), pid, v).m && Valid()
    {
      assert M.WfPd(State(), pds[pid]) && M.WfPte(State(), v, pds[pid][v]);
      var id := pds[pid][v].id;
      ok := NewUserPage(pid, v);
      if ok {
        page := page[pds[pid][v].frame := disk[id]];
      }
    }

    method PageFaultIsr(pid: nat, v: nat, write: bool) returns (ok: bool)
      requires Valid() && M.UserPage(State(), pid, v)
      modifies this
      ensures ok <==> M.Fault(old(State()), pid, v, write).Ok?
      ensures ok ==> State() == M.Fault(old(State()), pid, v, write).m && Valid()
    {
      if pds[pid][v].Swapped? {
        ok := SwapPageIn(pid, v);
      } else if pds[pid][v].Requested? {
        ok := NewUserPage(pid, v);
      } else if write && M.IsCow(pds[pid][v]) {
        ok := LoadCowPage(pid, v);
      } else {
        ok := false;
      }
    }

    method SharePage(pid: nat, v: nat) returns (ok: bool, code: M.ShareCode)
      requires Valid() && M.UserPage(State(), pid, v)
      modifies this
      ensures ok <==> M.SharePage(old(State()), pid, v).Ok?
      ensures ok ==> State() == M.SharePage(old(State()), pid, v).m
      ensures ok ==> code == M.ShareResult(old(State()), pid, v)
    {
      ok, code := true, M.EINVALID;
      if pds[pid][v].Requested? {
        ok := NewUserPage(pid, v);
      } else if M.IsCow(pds[pid][v]) {
        ok := LoadCowPage(pid, v);
      }
      if ok && pds[pid][v].Present? {
        WritePte(pid, v, pds[pid][v].(kind := M.Kind.Shared));
        code := M.Shared0;
      }
    }

    /** The body of the loop of `mm_clone_pd`. */
    method CloneOne(parent: nat, child: nat, v: nat)
      requires Valid() && M.UserPage(State(), parent, v) && M.UserPage(State(), child, v)
      modifies this
      ensures State() == M.ForkStep(old(State()), parent, child, v)
    {
      assert M.WfPd(State(), pds[parent]) && M.WfPte(State(), v, pds[parent][v]);
      var src := pds[parent][v];
      if !src.Present? && !src.Requested? {
        return;
      }
      var dest := src;
      if src.Present? && src.kind.Assigned? {
        dest := M.Present(src.frame, M.Cow, false);
      }
      WritePte(child, v, dest);
      WritePte(parent, v, dest);
      if src.Present? {
        count := count[src.frame := count[src.frame] + 1];
      }
    }

    method ClonePd(parent: nat, child: nat)
      requires Valid() && parent in pds && child !in pds
      modifies this
      ensures Valid() && State() == M.Fork(old(State()), parent, child)
    {
      pds := pds[child := M.EmptyPd()];
      ghost var start := State();
      assert start == M.Spawn(old(State()), child);
      var vaddr := M.KERNEL_LIMIT;
      while vaddr != M.V_PAGES
        invariant M.KERNEL_LIMIT <= vaddr <= M.V_PAGES
        invariant Valid() && State() == M.ForkUpTo(start, parent, child, vaddr)
        decreases M.V_PAGES - vaddr
      {
        CloneOne(parent, child, vaddr);
        vaddr := vaddr + 1;
      }
    }

    method DirFree(pid: nat)
      requires Valid() && pid in pds
      modifies this
      ensures Valid() && State() == M.Exit(old(State()), pid)
    {
      ghost var start := State();
      var vaddr := M.KERNEL_LIMIT;
      while vaddr != M.V_PAGES
        invariant M.KERNEL_LIMIT <= vaddr <= M.V_PAGES
        invariant Valid() && State() == M.FreeUpTo(start, pid, vaddr)
        decreases M.V_PAGES - vaddr
      {
        assert M.WfPd(State(), pds[pid]) && M.WfPte(State(), vaddr, pds[pid][vaddr]);
        if pds[pid][vaddr].Present? {
          ReturnPage(pds[pid][vaddr].frame);
          WritePte(pid, vaddr, M.Invalid);
        }
        vaddr := vaddr + 1;
      }
      pds := pds - {pid};
    }
  }
}
