/** The growing and shrinking hash table of src/o2node.cpp.

    `children` is the dynamic array of chains, `numChildren` the counter that
    decides when to resize.  Resizing re-inserts every entry with the ordinary
    insert and never resets the counter, so one resize can trigger others. */
module HashTable {
  import opened Common
  import opened HashChains

  /** A cursor over an array of chains. */
  class Enumerate {
    const dict: Table
    var index: nat
    var entry: seq<Entry>

    ghost predicate Valid()
      reads this
    {
      index <= |dict|
    }

    /** What is still to be visited. */
    ghost function Remaining(): seq<Entry>
      reads this
      requires Valid()
    {
      entry + Flatten(dict[index..])
    }

    constructor (dict: Table)
      ensures Valid() && Remaining() == Flatten(dict)
    {
      this.dict := dict;
      index, entry := 0, [];
      new;
      assert dict[0..] == dict;
    }

    method Next() returns (e: Option<Entry>)
      requires Valid()
      modifies this
      ensures Valid()
      ensures old(Remaining()) == [] ==> e == None && Remaining() == []
      ensures old(Remaining()) != [] ==> e == Some(old(Remaining())[0]) && Remaining() == old(Remaining())[1..]
    {
      while entry == []
        invariant Valid() && Remaining() == old(Remaining())
        decreases |dict| - index
      {
        if index >= |dict| {
          return None;
        }
        entry := dict[index];
        assert dict[index..][1..] == dict[index + 1..];
        index := index + 1;
      }
      e := Some(entry[0]);
      entry := entry[1..];
    }
  }

  class HashTable {
    var children: Table
    var numChildren: int
    /** How many slots the memory allocator gives when asked for some. */
    const slots: nat -> nat
    /** The finite map the table stands for. */
    ghost var model: map<Key, nat>

    ghost predicate Represented()
      reads this
    {
      && Represents(children, model)
      && (forall n :: slots(n) >= n)
      && slots(0) == 0
    }

    /** The counter is at least the number of entries, and the table is never
        more than four fifths full by the counter. */
    ghost predicate Valid()
      reads this
    {
      Represented() && |model| <= numChildren && 5 * numChildren <= 4 * |children|
    }

    constructor (locations: nat, slots: nat -> nat)
      requires (forall n :: slots(n) >= n) && slots(0) == 0
      ensures Valid() && model == map[] && this.slots == slots
    {
      this.slots := slots;
      children := Empty(slots(locations));
      numChildren := 0;
      model := map[];
      EmptyRepresents(slots(locations));
    }

    /** The slot of a key, and the place in its chain: where the key is, or the
        end of the chain.  A table without slots gets some first. */
    method Lookup(key: Key) returns (b: nat, i: nat)
      requires Represented() && (children == [] ==> model == map[])
      modifies `children
      ensures Represented()
      ensures if old(children) == [] then |children| >= 2 else children == old(children)
      ensures |children| > 0 && b == Bucket(key, |children|) == Hash(key) % |children| && i <= |children[b]|
      ensures key in model <==> i < |children[b]|
      ensures key in model ==> children[b][i] == Entry(key, model[key])
    {
      if |children| <= 0 {
        EmptyRepresents(slots(2));
        children := Empty(slots(2));
      }
      hide Bucket;
      var hash := GetHash(key);
      BucketIs(key, |children|);
      b := hash % |children|;
      i := 0;
      while i < |children[b]| && children[b][i].key != key
        invariant 0 <= i <= |children[b]|
        invariant forall j :: 0 <= j < i ==> children[b][j].key != key
      {
        i := i + 1;
      }
      if i < |children[b]| {
        assert Holds(children, children[b][i]);
      } else if key in model {
        assert Holds(children, Entry(key, model[key]));
      }
    }

    static lemma BucketIs(key: Key, n: nat)
      requires n > 0
      ensures Bucket(key, n) == Hash(key) % n
    {
    }

    /** Insert or replace.  `rank` bounds how many resizes can be nested: from
        outside it is 2, inside a resize 1, and inside a resize nested in a
        resize 0, where the table is known to be large enough. */
    method Insert(e: Entry, ghost rank: nat := 2)
      requires Valid() && rank <= 2
      requires rank == 0 ==> e.key !in model && 5 * (numChildren + 1) <= 4 * |children|
      requires rank == 1 ==> e.key !in model && 2 * (|model| + 1) <= numChildren + 1
      modifies this
      ensures Valid() && model == old(model)[e.key := e.id]
      ensures numChildren >= old(numChildren) + (if e.key in old(model) then 0 else 1)
      ensures rank == 0 ==> numChildren == old(numChildren) + 1 && |children| == old(|children|)
      decreases rank, 2
    {
      var b, i := Lookup(e.key);
      if i < |children[b]| {
        UnlinkAt(b, i);
      }
      EntryInsertAt(b, i, e, rank);
    }

    /** `entry_remove` up to the resizing. */
    method UnlinkAt(b: nat, i: nat)
      requires Represented() && |model| <= numChildren && b < |children| && i < |children[b]|
      modifies `children, `numChildren, `model
      ensures Represented() && |model| <= numChildren
      ensures numChildren == old(numChildren) - 1 && |children| == |old(children)|
      ensures old(children)[b][i].key in old(model)
      ensures model == old(model) - {old(children)[b][i].key}
      ensures children == Removed(old(children), b, i)
    {
      RemovedRepresents(children, model, b, i);
      ghost var key := children[b][i].key;
      numChildren := numChildren - 1;
      children := Removed(children, b, i);
      assert (model - {key}).Keys == model.Keys - {key};
      model := model - {key};
    }

    method EntryInsertAt(b: nat, i: nat, e: Entry, ghost rank: nat)
      requires Valid() && |children| > 0 && rank <= 2
      requires b == Bucket(e.key, |children|) && i <= |children[b]| && e.key !in model
      requires rank == 0 ==> 5 * (numChildren + 1) <= 4 * |children|
      requires rank == 1 ==> 2 * (|model| + 1) <= numChildren + 1
      modifies this
      ensures Valid() && model == old(model)[e.key := e.id]
      ensures numChildren >= old(numChildren) + 1
      ensures rank == 0 ==> numChildren == old(numChildren) + 1 && |children| == old(|children|)
      ensures 5 * (old(numChildren) + 1) <= 4 * old(|children|) ==>
                children == Inserted(old(children), b, i, e) && numChildren == old(numChildren) + 1
      decreases rank, 1
    {
      InsertedRepresents(children, model, b, i, e);
      assert model[e.key := e.id].Keys == model.Keys + {e.key};
      numChildren := numChildren + 1;
      children := Inserted(children, b, i, e);
      model := model[e.key := e.id];
      if numChildren * 5 > |children| * 4 {
        TableResize(numChildren * 2, rank - 1);
      }
    }

    /** Move every entry to a fresh array.  Any table can be resized at rank 1;
        at rank 0 the new array must have room for counting every entry once
        more, and then no insertion resizes again. */
    method TableResize(newLocs: nat, ghost rank: nat)
      requires Represented() && |model| <= numChildren && 5 * numChildren <= 4 * newLocs
      requires rank == 0 ==> 5 * (numChildren + |model|) <= 4 * newLocs
      requires rank <= 1
      modifies this
      ensures Valid() && model == old(model)
      ensures numChildren >= old(numChildren) + |model|
      decreases rank, 3
    {
      hide Represents, MapOf, Flatten, DistinctKeys, Empty, Bucket, Holds, Enumerate.Remaining;
      var en := new Enumerate(children);
      ghost var all := Flatten(children);
      ghost var target, base := model, numChildren;
      FlattenIsTheMap(children, model);
      children := Empty(slots(newLocs));
      model := map[];
      EmptyRepresents(slots(newLocs));
      ghost var done: nat := 0;
      assert all[..0] == [] && all[0..] == all;
      MapOfNothing();
      var entry := en.Next();
      while entry != None
        invariant en.Valid() && done <= |all|
        invariant if done < |all| then entry == Some(all[done]) && en.Remaining() == all[done + 1..]
                  else entry == None
        invariant Valid() && model == MapOf(all[..done]) && |model| == done
        invariant numChildren >= base + done
        invariant rank == 0 ==> numChildren == base + done && |children| >= newLocs
        decreases |all| - done
      {
        NextKeyIsNew(all, done);
        assert rank == 1 ==> 2 * (|model| + 1) <= numChildren + 1;
        assert rank == 0 ==> 5 * (numChildren + 1) <= 4 * |children|;
        Insert(entry.value, rank);
        done := done + 1;
        entry := en.Next();
      }
      assert all[..done] == all;
    }

    static lemma MapOfNothing()
      ensures MapOf([]) == map[]
    {
    }

    static lemma NextKeyIsNew(all: seq<Entry>, done: nat)
      requires DistinctKeys(all) && done < |all|
      ensures all[done].key !in MapOf(all[..done])
      ensures MapOf(all[..done + 1]) == MapOf(all[..done])[all[done].key := all[done].id]
      ensures |MapOf(all[..done + 1])| == done + 1
    {
      var before, after := all[..done], all[..done + 1];
      MapOfDistinct(before);
      MapOfDistinct(after);
      assert after[..|after| - 1] == before;
      forall k | k in MapOf(before) ensures k != all[done].key {
        assert Entry(k, MapOf(before)[k]) in before;
      }
    }

    /** `entry_remove`: unlink the entry at a place found by `Lookup`, and
        shrink a table that has become too sparse. */
    method EntryRemove(b: nat, i: nat, resize: bool)
      requires Valid() && b < |children| && i < |children[b]|
      modifies this
      ensures Valid() && old(children)[b][i].key in old(model)
      ensures model == old(model) - {old(children)[b][i].key}
      ensures var n, was := old(numChildren) - 1, old(children);
              if resize && 5 * n < |was| && n > 3 then numChildren >= n + |model|
              else children == Removed(was, b, i) && numChildren == n
    {
      UnlinkAt(b, i);
      if resize && numChildren * 5 < |children| && numChildren > 3 {
        TableResize(|children| / 2 - 1, 1);
      }
    }

    /** `entry_remove_by_name`. */
    method EntryRemoveByName(key: Key, finishing: bool) returns (ok: bool)
      requires Valid()
      modifies this
      ensures Valid() && ok == (key in old(model)) && model == old(model) - {key}
    {
      var b, i := Lookup(key);
      ok := i < |children[b]|;
      if ok {
        EntryRemove(b, i, !finishing);
      }
    }
  }
}
