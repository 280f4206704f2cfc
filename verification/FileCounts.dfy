/** Open file descriptions, shared between processes and counted. */
module FileCounts {

  /** A file descriptor of a process object. */
  datatype Handle = Handle(owner: nat, fd: nat)

  /** The descriptors that name a description. */
  ghost function Refs(fds: map<Handle, int>, key: int): set<Handle> {
    set x | x in fds && fds[x] == key
  }

  /** A description exists while some descriptor names it, and its count is the number of those. */
  ghost predicate Conserved(files: map<int, int>, fds: map<Handle, int>) {
    forall key :: if key in files then files[key] == |Refs(fds, key)| > 0 else Refs(fds, key) == {}
  }

  /** The file table after a description is given up once. */
  function Released(files: map<int, int>, key: int): map<int, int> {
    if key !in files then files
    else if files[key] - 1 <= 0 then files - {key}
    else files[key := files[key] - 1]
  }

  lemma Gains(files: map<int, int>, fds: map<Handle, int>, x: Handle, key: int)
    requires Conserved(files, fds) && x !in fds
    ensures Conserved(files[key := (if key in files then files[key] else 0) + 1], fds[x := key])
  {
    var fds' := fds[x := key];
    forall k
      ensures Refs(fds', k) == if k == key then Refs(fds, k) + {x} else Refs(fds, k)
    {
    }
  }

  lemma Loses(files: map<int, int>, fds: map<Handle, int>, x: Handle)
    requires Conserved(files, fds) && x in fds
    ensures fds[x] in files && Conserved(Released(files, fds[x]), fds - {x})
  {
    var key, fds' := fds[x], fds - {x};
    assert x in Refs(fds, key);
    forall k
      ensures Refs(fds', k) == if k == key then Refs(fds, k) - {x} else Refs(fds, k)
    {
    }
    if files[key] == 1 {
      assert |Refs(fds, key) - {x}| == 0;
    }
  }
}
