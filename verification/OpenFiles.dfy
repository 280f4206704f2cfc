/** The file table, and the calls that open, share and close files. */
module OpenFiles {
  import opened FileCounts

  /** Every key from `lo` below `hi` is taken. */
  ghost predicate AllTaken<T>(m: map<int, T>, lo: int, hi: int) {
    forall k :: lo <= k < hi ==> k in m
  }

  /** A run of taken keys is no longer than the map. */
  lemma {:induction false} TakenBound<T>(m: map<int, T>, lo: int, hi: int)
    requires lo <= hi && AllTaken(m, lo, hi)
    ensures hi - lo <= |m|
    decreases hi - lo
  {
    if lo < hi {
      var rest := m - {hi - 1};
      assert m.Keys == rest.Keys + {hi - 1};
      assert |m.Keys| == |rest.Keys| + 1;
      TakenBound(rest, lo, hi - 1);
    }
  }

  class FileTable {
    /** The count of each description, by key. */
    var files: map<int, int>

    constructor ()
      ensures files == map[]
    {
      files := map[];
    }

    /** Make a description with the lowest free key; `ok` says whether the file can be opened. */
    method OpenFile(ok: bool) returns (key: int)
      modifies `files
      ensures !ok ==> key == -1 && files == old(files)
      ensures ok ==> key >= 1 && key !in old(files) && AllTaken(old(files), 1, key) && files == old(files)[key := 1]
    {
      key := 1;
      while key in files
        invariant files == old(files) && key >= 1 && AllTaken(files, 1, key)
        decreases |files| - key
      {
        TakenBound(files, 1, key + 1);
        key := key + 1;
      }
      files := files[key := if ok then 1 else 0];
      if files[key] == 0 {
        files := files - {key};
        assert files == old(files);
        return -1;
      }
    }

    method CloseFile(key: int) returns (ret: int)
      modifies `files
      ensures ret == (if key in old(files) then 0 else -1) && files == Released(old(files), key)
    {
      if key !in files {
        return -1;
      }
      files := files[key := files[key] - 1];
      if files[key] <= 0 {
        files := files - {key};
        assert files == old(files) - {key};
      }
      return 0;
    }

    method CopyFile(key: int) returns (ret: int)
      modifies `files
      ensures ret == if key in old(files) then 0 else -1
      ensures files == if key in old(files) then old(files)[key := old(files)[key] + 1] else old(files)
    {
      if key !in files {
        return -1;
      }
      files := files[key := files[key] + 1];
      return 0;
    }
  }

  /** The file descriptors of a process object. */
  ghost function Owned(fds: map<Handle, int>, owner: nat): set<Handle> {
    set x | x in fds && x.owner == owner
  }

  /** Two process objects have the same descriptors. */
  ghost predicate SameFds(fds: map<Handle, int>, a: nat, gds: map<Handle, int>, b: nat) {
    forall fd: nat ::
      (Handle(a, fd) in fds <==> Handle(b, fd) in gds) && (Handle(a, fd) in fds ==> fds[Handle(a, fd)] == gds[Handle(b, fd)])
  }

  /** Only the descriptors of one process object have changed. */
  ghost predicate OthersKept(fds: map<Handle, int>, gds: map<Handle, int>, owner: nat) {
    forall x: Handle :: x.owner != owner ==> (x in fds <==> x in gds) && (x in fds ==> fds[x] == gds[x])
  }

  /** Each process has an object of its own, older than the next one, and only these hold descriptors. */
  ghost predicate Housed(table: map<nat, nat>, fds: map<Handle, int>, next: nat) {
    && (forall x :: x in fds ==> exists p :: p in table && table[p] == x.owner)
    && (forall p :: p in table ==> table[p] < next)
    && (forall p, q :: p in table && q in table && p != q ==> table[p] != table[q])
  }

  lemma KeptAreSame(fds: map<Handle, int>, gds: map<Handle, int>, owner: nat, b: nat)
    requires OthersKept(fds, gds, owner) && b != owner
    ensures SameFds(fds, b, gds, b)
  {
  }

  lemma StillHoused(table: map<nat, nat>, fds: map<Handle, int>, gds: map<Handle, int>, next: nat, pid: nat)
    requires Housed(table, fds, next) && pid in table && OthersKept(fds, gds, table[pid])
    ensures Housed(table, gds, next)
  {
    forall x | x in gds
      ensures exists p :: p in table && table[p] == x.owner
    {
      if x.owner != table[pid] {
        assert x in fds;
      }
    }
  }

  /** A new object with descriptors of its own moves into the process table. */
  lemma MovesIn(table: map<nat, nat>, fds: map<Handle, int>, gds: map<Handle, int>, next: nat, pid: nat)
    requires Housed(table, fds, next) && OthersKept(fds, gds, next) && pid !in table
    ensures Housed(table[pid := next], gds, next + 1)
  {
    var table' := table[pid := next];
    forall x | x in gds
      ensures exists p :: p in table' && table'[p] == x.owner
    {
      if x.owner != next {
        assert x in fds;
        var p :| p in table && table[p] == x.owner;
        assert p in table' && table'[p] == x.owner;
      } else {
        assert pid in table' && table'[pid] == x.owner;
      }
    }
  }

  /** An object that holds no descriptors moves out. */
  lemma MovesOut(table: map<nat, nat>, fds: map<Handle, int>, gds: map<Handle, int>, next: nat, pid: nat)
    requires Housed(table, fds, next) && pid in table && OthersKept(fds, gds, table[pid]) && Owned(gds, table[pid]) == {}
    ensures Housed(table - {pid}, gds, next)
  {
    var table' := table - {pid};
    forall x | x in gds
      ensures exists p :: p in table' && table'[p] == x.owner
    {
      assert x !in Owned(gds, table[pid]);
      assert x in fds;
      var p :| p in table && table[p] == x.owner;
      assert p in table' && table'[p] == x.owner;
    }
  }

  lemma NextUnused(table: map<nat, nat>, fds: map<Handle, int>, next: nat)
    requires Housed(table, fds, next)
    ensures Owned(fds, next) == {} && forall p :: p in table ==> table[p] < next
    ensures forall p, q :: p in table && q in table && p != q ==> table[p] != table[q]
  {
  }

  class Processes {
    const ft: FileTable
    /** The process table: the process object of each process. */
    var table: map<nat, nat>
    /** The file descriptors of all process objects, each with the key of a description. */
    var fds: map<Handle, int>
    /** The next process object. */
    var next: nat

    /** The counts are right, and only the objects in the process table hold descriptors. */
    ghost predicate Valid()
      reads this, ft
    {
      Conserved(ft.files, fds) && Housed(table, fds, next)
    }

    constructor (ft: FileTable, init: nat)
      requires ft.files == map[]
      ensures Valid() && this.ft == ft && table == map[init := 0] && fds == map[]
    {
      this.ft, table, fds, next := ft, map[init := 0], map[], 1;
    }

    /** Give a process object the descriptors of another, and count each of them. */
    method Duplicate(owner: nat, from: nat)
      requires Conserved(ft.files, fds) && owner != from && Owned(fds, owner) == {}
      modifies `fds, ft
      ensures Conserved(ft.files, fds) && OthersKept(old(fds), fds, owner) && SameFds(old(fds), from, fds, owner)
    {
      var todo := set x | x in fds && x.owner == from;
      assert forall fd: nat :: Handle(owner, fd) in fds ==> Handle(owner, fd) in Owned(fds, owner);
      while todo != {}
        invariant Conserved(ft.files, fds) && OthersKept(old(fds), fds, owner)
        invariant forall x :: x in todo ==> x in fds && x.owner == from
        invariant forall fd: nat :: Handle(owner, fd) in fds <==> Handle(from, fd) in fds && Handle(from, fd) !in todo
        invariant forall fd: nat :: Handle(owner, fd) in fds ==> fds[Handle(owner, fd)] == fds[Handle(from, fd)]
        decreases |todo|
      {
        var x :| x in todo;
        var key := fds[x];
        assert x in Refs(fds, key);
        Gains(ft.files, fds, Handle(owner, x.fd), key);
        fds := fds[Handle(owner, x.fd) := key];
        var _ := ft.CopyFile(key);
        todo := todo - {x};
      }
    }

    /** Close all descriptors of a process object. */
    method CloseAll(owner: nat) returns (ret: int)
      requires Conserved(ft.files, fds)
      modifies `fds, ft
      ensures Conserved(ft.files, fds) && OthersKept(old(fds), fds, owner) && Owned(fds, owner) == {}
      ensures ret == 0
    {
      ret := 0;
      var todo := set x | x in fds && x.owner == owner;
      while todo != {}
        invariant Conserved(ft.files, fds) && OthersKept(old(fds), fds, owner) && todo == Owned(fds, owner) && ret == 0
        decreases |todo|
      {
        var x :| x in todo;
        Loses(ft.files, fds, x);
        var ret2 := ft.CloseFile(fds[x]);
        if ret2 == -1 {
          ret := -1;
        }
        fds := fds - {x};
        todo := todo - {x};
      }
    }

    /** Open a file under the lowest free descriptor of a process. */
    method Open(pid: nat, ok: bool) returns (fd: int)
      requires Valid() && pid in table
      modifies `fds, ft
      ensures Valid() && OthersKept(old(fds), fds, table[pid])
      ensures !ok ==> fd == -1 && fds == old(fds) && ft.files == old(ft.files)
      ensures ok ==> fd >= 0 && Handle(table[pid], fd) !in old(fds) && (forall k: nat :: k < fd ==> Handle(table[pid], k) in old(fds))
      ensures ok ==> exists key :: key !in old(ft.files) && fds == old(fds)[Handle(table[pid], fd) := key]
    {
      var key := ft.OpenFile(ok);
      if key == -1 {
        return -1;
      }
      var owner := table[pid];
      var n: nat := 0;
      while Handle(owner, n) in fds
        invariant fds == old(fds) && ft.files == old(ft.files)[key := 1] && forall k: nat :: k < n ==> Handle(owner, k) in fds
        decreases |fds| - n
      {
        HandlesBound(fds, owner, n + 1);
        n := n + 1;
      }
      Gains(old(ft.files), fds, Handle(owner, n), key);
      fds := fds[Handle(owner, n) := key];
      StillHoused(table, old(fds), fds, next, pid);
      return n;
    }

    /** Close a descriptor of a process; -1 closes all of them. */
    method Close(pid: nat, fd: int) returns (ret: int)
      requires Valid() && pid in table
      modifies `fds, ft
      ensures Valid() && OthersKept(old(fds), fds, table[pid])
      ensures fd == -1 ==> ret == 0 && Owned(fds, table[pid]) == {}
      ensures fd != -1 && (fd < 0 || Handle(table[pid], fd) !in old(fds)) ==> ret == -1 && fds == old(fds) && ft.files == old(ft.files)
      ensures fd >= 0 && Handle(table[pid], fd) in old(fds) ==> ret == 0 && fds == old(fds) - {Handle(table[pid], fd)}
    {
      var owner := table[pid];
      if fd == -1 {
        ret := CloseAll(owner);
        StillHoused(table, old(fds), fds, next, pid);
        return;
      }
      if fd < 0 || Handle(owner, fd) !in fds {
        return -1;
      }
      Loses(ft.files, fds, Handle(owner, fd));
      ret := ft.CloseFile(fds[Handle(owner, fd)]);
      fds := fds - {Handle(owner, fd)};
      StillHoused(table, old(fds), fds, next, pid);
    }

    /** Start a process with the descriptors of another; `pid` is what the process table gives it, zero if
        the table is full. */
    method Fork(parent: nat, pid: nat) returns (ret: int)
      requires Valid() && parent in table && (pid != 0 ==> pid !in table)
      modifies `table, `fds, `next, ft
      ensures Valid()
      ensures ret == if pid == 0 then -1 else pid
      ensures pid == 0 ==> table == old(table) && fds == old(fds)
      ensures pid != 0 ==> pid in table && table == old(table)[pid := table[pid]]
      ensures pid != 0 ==> SameFds(old(fds), old(table)[parent], fds, table[pid])
      ensures forall p :: p in old(table) ==> SameFds(old(fds), old(table)[p], fds, old(table)[p])
    {
      hide Conserved, Housed, OthersKept, SameFds;
      NextUnused(table, fds, next);
      var child := next;
      next := next + 1;
      Duplicate(child, table[parent]);
      if pid == 0 {
        ghost var gds := fds;
        var _ := CloseAll(child);
        Restored(old(fds), gds, fds, child);
        Older(table, fds, child);
        forall p | p in table
          ensures SameFds(old(fds), table[p], fds, table[p])
        {
          Same(fds, table[p]);
        }
        return -1;
      }
      MovesIn(table, old(fds), fds, child, pid);
      table := table[pid := child];
      forall p | p in old(table)
        ensures SameFds(old(fds), old(table)[p], fds, old(table)[p])
      {
        KeptAreSame(old(fds), fds, child, old(table)[p]);
      }
      return pid;
    }

    /** Replace the object of a process by a new one with the same descriptors. */
    method Execve(pid: nat, elfValid: bool)
      requires Valid() && pid in table
      modifies `table, `fds, `next, ft
      ensures Valid() && pid in table && table == old(table)[pid := table[pid]]
      ensures !elfValid ==> table == old(table) && fds == old(fds)
      ensures forall p :: p in table ==> SameFds(old(fds), old(table)[p], fds, table[p])
    {
      hide Conserved, Housed, OthersKept, SameFds;
      NextUnused(table, fds, next);
      if !elfValid {
        forall p | p in table
          ensures SameFds(fds, table[p], fds, table[p])
        {
          Same(fds, table[p]);
        }
        return;
      }
      var made, was := next, table[pid];
      next := next + 1;
      table := table[pid := made];
      Duplicate(made, was);
      ghost var gds := fds;
      var _ := CloseAll(was);
      Replaced(old(table), old(fds), gds, fds, made, pid);
      forall p | p in table
        ensures SameFds(old(fds), old(table)[p], fds, table[p])
      {
        if p == pid {
          KeptAreSame(gds, fds, was, made);
          SameSame(old(fds), was, gds, made, fds, made);
        } else {
          KeptAreSame(old(fds), gds, made, table[p]);
          KeptAreSame(gds, fds, was, table[p]);
          SameSame(old(fds), table[p], gds, table[p], fds, table[p]);
        }
      }
    }

    /** Delete a process. */
    method Erase(pid: nat)
      requires Valid()
      modifies `table, `fds, ft
      ensures Valid() && table == old(table) - {pid}
      ensures forall p :: p in table ==> SameFds(old(fds), table[p], fds, table[p])
      ensures pid in old(table) ==> Owned(fds, old(table)[pid]) == {}
    {
      hide Conserved, Housed, OthersKept, SameFds, Owned;
      NextUnused(table, fds, next);
      if pid in table {
        var was := table[pid];
        var _ := CloseAll(was);
        MovesOut(table, old(fds), fds, next, pid);
        table := table - {pid};
        forall p | p in table
          ensures SameFds(old(fds), table[p], fds, table[p])
        {
          KeptAreSame(old(fds), fds, was, table[p]);
        }
      } else {
        assert table - {pid} == table;
        forall p | p in table
          ensures SameFds(fds, table[p], fds, table[p])
        {
          Same(fds, table[p]);
        }
      }
    }
  }

  lemma Same(fds: map<Handle, int>, a: nat)
    ensures SameFds(fds, a, fds, a)
  {
  }

  lemma SameSame(fds: map<Handle, int>, a: nat, gds: map<Handle, int>, b: nat, hds: map<Handle, int>, c: nat)
    requires SameFds(fds, a, gds, b) && SameFds(gds, b, hds, c)
    ensures SameFds(fds, a, hds, c)
  {
  }

  lemma Older(table: map<nat, nat>, fds: map<Handle, int>, next: nat)
    requires Housed(table, fds, next)
    ensures Housed(table, fds, next + 1)
  {
  }

  /** The new object moves in as the old one, emptied, moves out. */
  lemma Replaced(table: map<nat, nat>, fds: map<Handle, int>, gds: map<Handle, int>, hds: map<Handle, int>, next: nat, pid: nat)
    requires Housed(table, fds, next) && pid in table && OthersKept(fds, gds, next)
    requires OthersKept(gds, hds, table[pid]) && Owned(hds, table[pid]) == {}
    ensures Housed(table[pid := next], hds, next + 1)
  {
    var table' := table[pid := next];
    forall x | x in hds
      ensures exists p :: p in table' && table'[p] == x.owner
    {
      assert x !in Owned(hds, table[pid]);
      if x.owner == next {
        assert pid in table' && table'[pid] == x.owner;
      } else {
        assert x in fds;
        var p :| p in table && table[p] == x.owner;
        assert p in table' && table'[p] == x.owner;
      }
    }
  }

  lemma {:induction false} HandlesBound(fds: map<Handle, int>, owner: nat, n: nat)
    requires forall k: nat :: k < n ==> Handle(owner, k) in fds
    ensures n <= |fds|
  {
    if n > 0 {
      var x := Handle(owner, n - 1);
      var rest := fds - {x};
      assert fds.Keys == rest.Keys + {x};
      assert |fds.Keys| == |rest.Keys| + 1;
      HandlesBound(rest, owner, n - 1);
    }
  }

  lemma Restored(fds: map<Handle, int>, gds: map<Handle, int>, hds: map<Handle, int>, owner: nat)
    requires OthersKept(fds, gds, owner) && OthersKept(gds, hds, owner) && Owned(fds, owner) == {} && Owned(hds, owner) == {}
    ensures hds == fds
  {
    assert forall x :: x in fds && x.owner == owner ==> x in Owned(fds, owner);
    assert forall x :: x in hds && x.owner == owner ==> x in Owned(hds, owner);
    assert forall x :: x in fds <==> x in hds;
  }
}
