/** The table of open sockets of src/o2network.cpp: two parallel arrays, each
    socket record knowing its own index, compacted by moving the last entry
    into the hole; and the loop that deletes marked records, where deleting one
    may mark others. */
module SocketTable {
  import opened Common

  class SocketInfo {
    const fd: int
    /** Records that are marked for deletion when this one is deleted, as the
        connections accepted by a server socket are. */
    const closes: set<SocketInfo>
    var index: nat
    var deleteMe: bool

    constructor (fd: int, closes: set<SocketInfo>, index: nat)
      ensures this.fd == fd && this.closes == closes && this.index == index && !deleteMe
    {
      this.fd, this.closes, this.index, deleteMe := fd, closes, index, false;
    }
  }

  /** Everything whose deletion follows from deleting what is in `c`. */
  ghost predicate Closed(c: set<SocketInfo>, among: set<SocketInfo>) {
    forall x, y :: x in c && y in x.closes && y in among ==> y in c
  }

  class Sockets {
    var fds: seq<int>
    var infos: seq<SocketInfo>
    var deleteFlag: bool
    /** Every record that was ever in the table. */
    ghost var known: set<SocketInfo>

    ghost predicate Valid()
      reads this, infos
    {
      && (forall i :: 0 <= i < |infos| ==> infos[i] in known)
      && |fds| == |infos| && NoRepeats(infos)
      && (forall i :: 0 <= i < |infos| ==> infos[i].index == i && fds[i] == infos[i].fd)
    }

    /** A marked record never goes unnoticed. */
    ghost predicate Flagged()
      reads this, infos
    {
      (exists i :: 0 <= i < |infos| && infos[i].deleteMe) ==> deleteFlag
    }

    constructor ()
      ensures Valid() && Flagged() && infos == []
    {
      fds, infos, deleteFlag, known := [], [], false, {};
    }

    /** A new record goes to the end of both arrays. */
    method Add(fd: int, closes: set<SocketInfo>) returns (info: SocketInfo)
      requires Valid() && Flagged()
      modifies `fds, `infos, `known
      ensures Valid() && Flagged() && fresh(info) && infos == old(infos) + [info] && info.fd == fd
    {
      info := new SocketInfo(fd, closes, |infos|);
      fds, infos, known := fds + [fd], infos + [info], known + {info};
    }

    /** The `Fds_info` destructor: fill the hole with the last entry, then let
        the owner go, which may mark other sockets. */
    method Delete(i: nat)
      requires Valid() && i < |infos|
      modifies `fds, `infos, `deleteFlag, known
      ensures Valid()
      ensures infos == if i + 1 == |old(infos)| then old(infos)[..i]
                       else old(infos)[..|old(infos)| - 1][i := old(infos)[|old(infos)| - 1]]
      ensures forall x :: x in infos <==> x in old(infos) && x != old(infos)[i]
      ensures forall x :: x in known ==>
                x.deleteMe == (old(x.deleteMe) || (x in infos && x in old(infos)[i].closes))
      ensures deleteFlag == (old(deleteFlag) ||
                exists k :: 0 <= k < |infos| && infos[k] in old(infos)[i].closes)
    {
      var gone := infos[i];
      var last := |infos| - 1;
      if i < last {
        var replace := infos[last];
        fds := fds[i := fds[last]];
        infos := infos[i := replace];
        replace.index := i;
      }
      ghost var before := infos;
      fds, infos := fds[..last], infos[..last];
      assert before == infos + [before[last]];
      assert forall k :: 0 <= k < |infos| ==> infos[k] == (if k == i then old(infos)[last] else old(infos)[k]);
      forall x | x in old(infos) && x != gone ensures x in infos {
        var k :| 0 <= k < |old(infos)| && old(infos)[k] == x;
        assert k == last ==> infos[i] == x;
        assert k != last ==> infos[k] == x;
      }
      MarkOthers(gone.closes);
    }

    method MarkOthers(closes: set<SocketInfo>)
      requires Valid()
      modifies `deleteFlag, known
      ensures Valid()
      ensures forall x :: x in known ==>
                x.deleteMe == (old(x.deleteMe) || (x in infos && x in closes))
      ensures deleteFlag == (old(deleteFlag) || exists k :: 0 <= k < |infos| && infos[k] in closes)
    {
      var k := 0;
      while k < |infos|
        invariant 0 <= k <= |infos| && Valid()
        invariant forall x :: x in known && x !in infos ==> x.deleteMe == old(x.deleteMe)
        invariant forall j :: 0 <= j < |infos| ==>
                    infos[j].deleteMe == (old(infos[j].deleteMe) || (j < k && infos[j] in closes))
        invariant deleteFlag == (old(deleteFlag) || exists j :: 0 <= j < k && infos[j] in closes)
      {
        if infos[k] in closes {
          infos[k].deleteMe := true;
          deleteFlag := true;
        }
        k := k + 1;
      }
    }

    ghost function Members(): set<SocketInfo>
      reads this
    {
      set x | x in infos
    }

    /** `o2n_free_deleted_sockets`.  Afterwards no record is marked.  Exactly
        those records are gone whose deletion follows from the marks: what is
        gone includes the marked records and everything their deletion marks,
        and stays within any set `c` that does. */
    method FreeDeleted(ghost c: set<SocketInfo>) returns (ghost gone: set<SocketInfo>)
      requires Valid() && Flagged()
      requires forall x :: x in infos && x.deleteMe ==> x in c
      requires Closed(c, Members())
      modifies `fds, `infos, `deleteFlag, known
      ensures Valid() && Flagged() && !deleteFlag
      ensures forall x :: x in infos ==> !x.deleteMe
      ensures gone <= old(Members()) && Members() == old(Members()) - gone
      ensures forall x :: x in old(infos) && old(x.deleteMe) ==> x in gone
      ensures Closed(gone, old(Members())) && gone <= c
    {
      gone := {};
      assert forall x :: x in infos <==> x in Members();
      while deleteFlag
        invariant forall x :: x in old(infos) ==> x in gone || x in infos
        invariant Valid() && Flagged() && Progress(old(Members()), gone, c)
        invariant forall x :: x in infos ==> x in old(infos)
        invariant forall x :: x in old(infos) && old(x.deleteMe) ==> x in gone || x.deleteMe
        decreases |infos|, deleteFlag
      {
        gone := Pass(old(Members()), gone, c);
        forall x | x in old(infos) ensures x in gone || x in infos {
          assert x in old(Members()) - gone ==> x in Members();
        }
      }
      forall x | x in infos ensures !x.deleteMe {
        var i :| 0 <= i < |infos| && infos[i] == x;
      }
      forall x | x in old(infos) && old(x.deleteMe) ensures x in gone {
        assert x in gone || x in infos;
      }
    }

    /** What holds while marked records are being deleted. */
    ghost predicate Progress(all: set<SocketInfo>, gone: set<SocketInfo>, c: set<SocketInfo>)
      reads this, infos
    {
      && gone <= all && Members() == all - gone && gone <= c && Closed(c, all)
      && (forall x :: x in infos && x.deleteMe ==> x in c)
      && (forall x, y :: x in gone && y in x.closes && y in all ==> y in gone || (y in infos && y.deleteMe))
    }

    /** One pass over the table. */
    method Pass(ghost all: set<SocketInfo>, ghost gone: set<SocketInfo>, ghost c: set<SocketInfo>)
      returns (ghost gone': set<SocketInfo>)
      requires Valid() && Progress(all, gone, c) && deleteFlag
      modifies `fds, `infos, `deleteFlag, known
      ensures Valid() && Flagged() && Progress(all, gone', c) && gone <= gone'
      ensures forall x :: x in infos ==> x in old(infos)
      ensures forall x :: x in old(infos) && old(x.deleteMe) ==> x in gone' || x.deleteMe
      ensures |infos| < |old(infos)| || (|infos| == |old(infos)| && !deleteFlag)
    {
      gone' := gone;
      deleteFlag := false;
      var i := 0;
      while i < |infos|
        invariant 0 <= i <= |infos| <= |old(infos)| && Valid() && Progress(all, gone', c) && gone <= gone'
        invariant forall x :: x in infos ==> x in old(infos)
        invariant forall j :: 0 <= j < i && infos[j].deleteMe ==> deleteFlag
        invariant forall x :: x in old(infos) && old(x.deleteMe) ==> x in gone' || x.deleteMe
        invariant |infos| == |old(infos)| ==> !deleteFlag
        decreases |infos| - i
      {
        if infos[i].deleteMe {
          ghost var x := infos[i];
          assert x in Members();
          ghost var before := Members();
          Delete(i);
          gone' := gone' + {x};
          assert Members() == before - {x};
          forall y | y in infos && y.deleteMe ensures y in c {
            assert y in Members();
          }
          forall a, b | a in gone' && b in a.closes && b in all
            ensures b in gone' || (b in infos && b.deleteMe)
          {
            if b !in gone' { assert b in before && b in Members(); }
          }
        } else {
          i := i + 1;
        }
      }
    }
  }
}
