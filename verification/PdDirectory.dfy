/** The receivers of the Pd externals and the O2 handlers they share,
    pd/o2pd.c and pd/o2receive.c.  Each receiver has a path and types; all that
    have the same ones hang on one address node with one O2 handler. */
module PdDirectory {
  import opened Common
  import opened PdAddresses

  class Receiver {
    var path: Option<string>
    var types: Option<string>
    var address: AddressNode?

    constructor ()
      ensures path == None && types == None && address == null
    {
      path, types, address := None, None, null;
    }
  }

  class AddressNode {
    const path: string
    const types: Option<string>
    var receivers: seq<Receiver>

    constructor (path: string, types: Option<string>)
      ensures this.path == path && this.types == types && receivers == []
    {
      this.path, this.types, receivers := path, types, [];
    }

    ghost function Name(): Addr {
      Addr(path, types)
    }
  }

  lemma WithoutOne<T>(s: seq<T>, i: nat)
    requires NoRepeats(s) && i < |s|
    ensures NoRepeats(s[..i] + s[i + 1..])
    ensures forall x :: x in s[..i] + s[i + 1..] <==> x in s && x != s[i]
  {
    var r := s[..i] + s[i + 1..];
    forall x | x in s && x != s[i] ensures x in r {
      var k :| 0 <= k < |s| && s[k] == x;
      assert r[if k < i then k else k - 1] == x;
    }
  }

  /** How a change of address ends: as it should, with a NULL pointer, or with a
      failing assertion. */
  datatype Outcome = Done | NullPath | AssertionFailed

  /** How it ends for a receiver that is given a path, or none, and types. */
  ghost function EndOf<R>(v: Listening<R>, x: R, path: Option<string>, types: Option<string>): Outcome
    requires Named(v.Values) && (path.Some? ==> path.value != "")
  {
    if x !in v then (if path == None then NullPath else Done)
    else if && path.Some? && Addr(path.value, types) != v[x] && Last(v, x) && ServiceKept(v, x, path)
            && Conflicts((v - {x}).Values, Addr(path.value, types))
    then AssertionFailed
    else Done
  }

  lemma ActiveEndsWell<R>(v: Listening<R>, x: R, path: Option<string>, types: Option<string>)
    requires Named(v.Values) && (path.Some? ==> path.value != "") && x in v
    ensures EndOf(v, x, path, types) != NullPath
  {
  }

  class Directory {
    /** New nodes go to the front. */
    var addresses: seq<AddressNode>
    /** Handlers installed with `o2_method_new` and not freed. */
    ghost var methods: set<Addr>
    /** Services created with `o2_service_new` and not freed, without the
        initial slash. */
    ghost var services: set<string>
    /** Every receiver object. */
    ghost var known: set<Receiver>

    ghost function Active(): set<Addr>
      reads `addresses
    {
      set a | a in addresses :: a.Name()
    }

    /** What the directory is for: which receiver listens to what. */
    ghost function View(): Listening<Receiver>
      reads `known, known`address
    {
      map x | x in known && x.address != null :: x.address.Name()
    }

    /** INV_1, INV_2 and INV_4: nodes and receivers know each other. */
    ghost predicate Linked()
      reads `addresses, `known, addresses, known`address
    {
      && NoRepeats(addresses)
      && (forall a :: a in addresses ==> a.path != "" && NoRepeats(a.receivers))
      && (forall x :: x in known && x.address != null ==> x.address in addresses && x in x.address.receivers)
      && (forall a, x :: a in addresses && x in a.receivers ==> x in known && x.address == a)
    }

    /** No two nodes clash. */
    ghost predicate Separate()
      reads `addresses
    {
      forall a, b :: a in addresses && b in addresses && a != b ==> Compare(a.path, b.path) == NoMatch
    }

    /** Also INV_5 and INV_6: every node has a receiver, and its handler and no
        others are installed. */
    ghost predicate Valid()
      reads `addresses, `known, `methods, addresses, known`address
    {
      && Linked() && Separate()
      && Used() && methods == Active()
    }

    ghost predicate Used()
      reads `addresses, addresses
    {
      forall a :: a in addresses ==> a.receivers != []
    }

    /** INV_3, except for `x`. */
    ghost predicate SettledBut(x: Receiver?)
      reads `known, known
    {
      forall y :: y in known && y != x && y.address != null ==>
        y.path == Some(y.address.path) && y.types == y.address.types
    }

    ghost predicate Settled()
      reads `known, known
    {
      SettledBut(null)
    }

    /** The handlers installed are exactly what the receivers listen to, and no
        two of them would get the same message. */
    lemma HandlersAreWhatReceiversUse()
      requires Valid()
      ensures methods == View().Values
      ensures ConflictFree(View().Values)
    {
      forall m | m in methods ensures m in View().Values {
        var a :| a in addresses && a.Name() == m;
        var x := a.receivers[0];
        assert x in known && x.address == a;
        assert x in View() && View()[x] == m;
      }
    }

    constructor ()
      ensures Valid() && Settled() && known == {} && View() == map[]
    {
      addresses, methods, services, known := [], {}, {}, {};
    }

    // ------------------------------------------------------------------
    // Lists
    // ------------------------------------------------------------------

    /** `create_addressnode`. */
    method CreateAddressNode(path: string, types: Option<string>) returns (addr: AddressNode)
      requires Linked() && path != ""
      modifies `addresses
      ensures Linked() && fresh(addr) && addresses == [addr] + old(addresses)
      ensures addr.Name() == Addr(path, types) && addr.receivers == []
    {
      addr := new AddressNode(path, types);
      addresses := [addr] + addresses;
    }

    /** `add_o2rcv_to_address`. */
    method AddToAddress(x: Receiver, addr: AddressNode)
      requires Linked() && x in known && x.address == null && addr in addresses
      modifies x`address, addr
      ensures Linked()
      ensures x.address == addr && addr.receivers == [x] + old(addr.receivers)
    {
      x.address := addr;
      addr.receivers := [x] + addr.receivers;
    }

    /** `remove_o2rcv_from_address`. */
    method RemoveFromAddress(x: Receiver)
      requires Linked() && x in known && x.address != null
      modifies x`address, x.address
      ensures Linked() && x.address == null
      ensures forall y :: y in old(x.address).receivers <==> y in old(x.address.receivers) && y != x
      ensures |old(x.address).receivers| + 1 == |old(x.address.receivers)|
    {
      var addr := x.address;
      var i := 0;
      while i < |addr.receivers| && addr.receivers[i] != x
        invariant 0 <= i <= |addr.receivers|
        invariant forall j :: 0 <= j < i ==> addr.receivers[j] != x
      {
        i := i + 1;
      }
      WithoutOne(addr.receivers, i);
      addr.receivers := addr.receivers[..i] + addr.receivers[i + 1..];
      x.address := null;
    }

    /** `remove_addressnode` with `free_addressnode`: receivers that are still
        on it are unlinked. */
    method RemoveAddressNode(addr: AddressNode)
      requires Linked() && addr in addresses
      modifies `addresses, addr, known
      ensures Linked()
      ensures forall a :: a in addresses <==> a in old(addresses) && a != addr
      ensures |addresses| + 1 == |old(addresses)|
      ensures forall x :: x in known ==>
                x.address == (if old(x.address) == addr then null else old(x.address)) &&
                x.path == old(x.path) && x.types == old(x.types)
    {
      var i := 0;
      while i < |addresses| && addresses[i] != addr
        invariant 0 <= i <= |addresses|
        invariant forall j :: 0 <= j < i ==> addresses[j] != addr
      {
        i := i + 1;
      }
      while addr.receivers != []
        invariant Linked() && addresses == old(addresses)
        invariant forall x :: x in known ==>
                    (x.address == old(x.address) || (x.address == null && old(x.address) == addr)) &&
                    x.path == old(x.path) && x.types == old(x.types)
        decreases |addr.receivers|
      {
        var x := addr.receivers[0];
        assert x in known && x.address == addr;
        RemoveFromAddress(x);
      }
      WithoutOne(addresses, i);
      addresses := addresses[..i] + addresses[i + 1..];
    }

    /** `remove_all_addressnodes`, which leaves it to `o2_finish` to forget the
        handlers. */
    method RemoveAll()
      requires Valid()
      modifies this, addresses, known
      ensures addresses == [] && View() == map[] && Linked() && Separate() && Settled()
      ensures methods == old(methods) && services == old(services) && known == old(known)
    {
      while addresses != []
        invariant Linked() && known == old(known)
        invariant methods == old(methods) && services == old(services)
        invariant forall a :: a in addresses ==> a in old(addresses)
        decreases |addresses|
      {
        assert addresses[0] in old(addresses);
        RemoveAddressNode(addresses[0]);
      }
    }

    // ------------------------------------------------------------------
    // Searching
    // ------------------------------------------------------------------

    ghost predicate PathsOk()
      reads `addresses
    {
      forall a :: a in addresses ==> a.path != ""
    }

    /** `check_for_service`. */
    method CheckForService(service: string) returns (found: bool)
      requires service != "" && PathsOk()
      ensures Named(Active())
      ensures found <==> AnyHasService(Active(), service)
    {
      var i := 0;
      while i < |addresses|
        invariant 0 <= i <= |addresses|
        invariant forall j :: 0 <= j < i ==> !HasService(addresses[j].path, service)
      {
        var has := PathHasService(addresses[i].path, service);
        if has {
          assert addresses[i].Name() in Active();
          return true;
        }
        i := i + 1;
      }
      found := false;
    }

    /** `check_for_conflict`: a conflicting node, or the node to share, or
        neither. */
    method CheckForConflict(path: string, types: Option<string>) returns (conflict: bool, addr: AddressNode?)
      requires Separate()
      ensures conflict <==> exists b :: b in Active() && Clash(b, Addr(path, types))
      ensures conflict ==> addr != null && addr in addresses && Clash(addr.Name(), Addr(path, types))
      ensures !conflict ==>
                if addr == null then Addr(path, types) !in Active()
                else addr in addresses && addr.Name() == Addr(path, types) && addr.Name() in Active()
    {
      ghost var want := Addr(path, types);
      var i := 0;
      while i < |addresses|
        invariant 0 <= i <= |addresses|
        invariant forall j :: 0 <= j < i ==> Compare(path, addresses[j].path) == NoMatch
      {
        var a := addresses[i];
        var r := CheckAddressConflict(path, a.path);
        assert a.Name() in Active();
        if r == PrefixFound {
          assert Clash(a.Name(), want);
          return true, a;
        } else if r == Identical {
          if types == a.types {
            forall b | b in Active() ensures !Clash(b, want) {
              var n :| n in addresses && n.Name() == b;
              assert n != a ==> Compare(n.path, a.path) == NoMatch;
            }
            return false, a;
          } else {
            assert Clash(a.Name(), want);
            return true, a;
          }
        }
        i := i + 1;
      }
      conflict, addr := false, null;
    }

    // ------------------------------------------------------------------
    // Operations
    // ------------------------------------------------------------------

    ghost function Now(): Registry<Receiver>
      reads `known, `services, known`address
    {
      Registry(View(), services)
    }

    lemma AddressHasPath(x: Receiver)
      requires Valid() && x in known
      ensures x.address != null ==> x.address.path != "" && x.address in addresses
      ensures x in View() <==> x.address != null
      ensures x.address != null ==> View()[x] == x.address.Name()
    {
    }

    lemma ActiveIsUsed()
      requires Valid()
      ensures Active() == View().Values && Named(View().Values)
      ensures Separate() && PathsOk()
    {
      HandlersAreWhatReceiversUse();
    }

    ghost predicate NoneLike(want: Addr)
      reads `addresses
    {
      forall a :: a in addresses ==> Compare(a.path, want.path) == NoMatch
    }

    lemma NewIsSeparate(want: Addr)
      requires want !in Active()
      requires forall b :: b in Active() ==> !Clash(b, want)
      ensures NoneLike(want)
    {
      forall a | a in addresses ensures Compare(a.path, want.path) == NoMatch {
        assert a.Name() in Active();
      }
    }

    twostate lemma StaysSeparate(new addr: AddressNode, want: Addr)
      requires old(Separate()) && old(NoneLike(want)) && addr.Name() == want
      requires addresses == [addr] + old(addresses)
      ensures Separate() && Active() == old(Active()) + {want}
    {
    }

    twostate lemma StaysUsed(new addr: AddressNode)
      requires old(Used()) && addresses == [addr] + old(addresses) && addr.receivers != []
      requires forall a :: a in old(addresses) ==> a.receivers == old(a.receivers)
      ensures Used()
    {
    }

    twostate lemma OneMoreListens(x: Receiver, new addr: AddressNode)
      requires known == old(known) && x in known && x.address == addr && old(Settled())
      requires forall y :: y in known && y != x ==> y.address == old(y.address)
      requires forall y :: y in known ==> y.path == old(y.path) && y.types == old(y.types)
      requires x.path == Some(addr.path) && x.types == addr.types
      ensures Settled() && View() == old(View())[x := addr.Name()]
    {
    }

    /** A new address node with its handler. */
    method Install(x: Receiver)
      requires Valid() && Settled() && x in known && x.address == null
      requires x.path.Some? && x.path.value != ""
      requires Addr(x.path.value, x.types) !in Active()
      requires forall b :: b in Active() ==> !Clash(b, Addr(x.path.value, x.types))
      modifies this`addresses, this`methods, x`address, addresses
      ensures Valid() && Settled()
      ensures View() == old(View())[x := Addr(x.path.value, x.types)]
    {
      hide Linked, Compare, Clash, Separate, NoneLike, Active, NoRepeats, Used, View, Settled, SettledBut;
      ghost var want := Addr(x.path.value, x.types);
      NewIsSeparate(want);
      var addr := CreateAddressNode(x.path.value, x.types);
      StaysSeparate(addr, want);
      methods := methods + {want};
      AddToAddress(x, addr);
      StaysUsed(addr);
      OneMoreListens(x, addr);
    }

    /** One more receiver for a handler. */
    method Share(x: Receiver, addr: AddressNode)
      requires Valid() && Settled() && x in known && x.address == null
      requires addr in addresses && x.path == Some(addr.path) && x.types == addr.types
      modifies x`address, addr
      ensures Valid() && Settled()
      ensures View() == old(View())[x := addr.Name()]
    {
      hide Compare;
      AddToAddress(x, addr);
    }

    /** `add_o2receive`.  `inEnsemble` and `serviceOk` say whether O2 would
        create a service now.  The branch for conflicts has an assertion that no
        service is said to exist. */
    method AddReceive(x: Receiver, serviceExists: bool, inEnsemble: bool, serviceOk: bool) returns (asserted: bool)
      requires Valid() && Settled() && x in known && x.address == null
      requires x.path.Some? && x.path.value != ""
      modifies this`addresses, this`methods, this`services, x`address, addresses
      ensures Valid() && Settled()
      ensures Named(old(View()).Values)
      ensures Now() == Joined(old(Now()), x, Addr(x.path.value, x.types), serviceExists, inEnsemble && serviceOk)
      ensures asserted <==> serviceExists && Conflicts(old(View()).Values, Addr(x.path.value, x.types))
    {
      hide HasService, Service, AnyHasService, Named, Clash, Compare;
      hide Valid, Settled, Separate, PathsOk, Active, View;
      ActiveIsUsed();
      var path := x.path.value;
      ghost var want := Addr(path, x.types);
      var conflict, addr := CheckForConflict(path, x.types);
      asserted := false;
      if conflict {
        return serviceExists;
      }
      if addr == null {
        var exists' := serviceExists;
        if !exists' {
          var service := ExtractService(path);
          exists' := CheckForService(service);
          if !exists' {
            if !inEnsemble || !serviceOk {
              return;
            }
            services := services + {service[1..]};
          }
        }
        Install(x);
      } else {
        Share(x, addr);
      }
    }

    /** A receiver is the last of its handler if and only if it is alone on its
        address node. */
    lemma LastIff(x: Receiver)
      requires Valid() && x in known && x.address != null
      ensures Last(View(), x) <==> forall y :: y in x.address.receivers ==> y == x
    {
      var a := x.address;
      forall y | y in known && y.address != null && y.address.Name() == a.Name() ensures y.address == a {
        assert y.address != a ==> Compare(y.address.path, a.path) == NoMatch;
      }
      if y :| y in a.receivers && y != x {
        assert (View() - {x})[y] == a.Name();
      }
      forall y | y in View() - {x} && (View() - {x})[y] == a.Name() ensures y in a.receivers && y != x {
        assert y.address == a;
      }
    }

    lemma NamesDiffer(addr: AddressNode)
      requires Separate() && addr in addresses
      ensures forall a :: a in addresses && a != addr ==> a.Name() != addr.Name()
    {
    }

    lemma NobodyOn(addr: AddressNode)
      requires Linked() && addr.receivers == []
      ensures forall x :: x in known ==> x.address != addr
    {
    }

    /** The handler of an address node that has lost its last receiver is
        freed, and the node with it. */
    method Uninstall(addr: AddressNode)
      requires Linked() && Separate() && addr in addresses && addr.receivers == []
      requires methods == Active()
      requires forall a :: a in addresses && a != addr ==> a.receivers != []
      modifies `addresses, `methods, addr, known
      ensures Valid() && View() == old(View())
      ensures forall a :: a in addresses ==> a in old(addresses)
      ensures forall y :: y in known ==> y.path == old(y.path) && y.types == old(y.types) && y.address == old(y.address)
    {
      hide Compare, NoRepeats, Clash;
      NamesDiffer(addr);
      methods := methods - {addr.Name()};
      NobodyOn(addr);
      hide Linked;
      RemoveAddressNode(addr);
    }

    /** `x` leaves its node, which goes too if `x` was the last. */
    method Detach(x: Receiver) returns (last: bool)
      requires Valid() && SettledBut(x) && x in known && x.address != null
      modifies `addresses, `methods, known, addresses
      ensures Valid() && Settled() && x.address == null
      ensures forall y :: y in known ==> y.path == old(y.path) && y.types == old(y.types)
      ensures forall a :: a in addresses ==> a in old(addresses)
      ensures View() == old(View()) - {x} && last == Last(old(View()), x)
    {
      hide Compare, Separate, Last;
      LastIff(x);
      var addr := x.address;
      RemoveFromAddress(x);
      assert View() == old(View()) - {x};
      last := addr.receivers == [];
      if last {
        Uninstall(addr);
      } else {
        assert addr.receivers[0] in addr.receivers;
      }
    }

    /** A handler for `path` is gone: if nothing else has its service, and the
        new path of the receiver has not either, the service is freed. */
    method ReleaseService(path: string, newPath: Option<string>) returns (serviceExists: bool)
      requires path != "" && (newPath.Some? ==> newPath.value != "") && PathsOk()
      modifies `services
      ensures Named(Active())
      ensures serviceExists == (AnyHasService(Active(), Service(path)) ||
                                (newPath.Some? && HasService(newPath.value, Service(path))))
      ensures services == if serviceExists then old(services) else old(services) - {ServiceName(path)}
    {
      hide HasService, Service, AnyHasService;
      var service := ExtractService(path);
      serviceExists := CheckForService(service);
      if !serviceExists {
        var same := false;
        if newPath.Some? {
          same := PathHasService(newPath.value, service);
        }
        if same {
          serviceExists := true;
        } else {
          services := services - {service[1..]};
        }
      }
    }

    /** The first part of `update_receive_address`. */
    method Leave(x: Receiver) returns (serviceExists: bool)
      requires Valid() && SettledBut(x) && x in known && x.address != null
      requires x.path.Some? ==> x.path.value != ""
      modifies `addresses, `methods, `services, known, addresses
      ensures Valid() && Settled() && x.address == null
      ensures forall y :: y in known ==> y.path == old(y.path) && y.types == old(y.types)
      ensures forall a :: a in addresses ==> a in old(addresses)
      ensures Named(old(View()).Values) && x in old(View())
      ensures Now() == Left(old(Now()), x, x.path) && View() == old(View()) - {x}
      ensures serviceExists == (Last(old(View()), x) && ServiceKept(old(View()), x, x.path))
    {
      hide HasService, Service, AnyHasService, Named, Last;
      hide Valid, Settled, SettledBut, Separate, PathsOk, Active, View, Linked;
      ActiveIsUsed();
      AddressHasPath(x);
      var path := x.address.path;
      var last := Detach(x);
      ActiveIsUsed();
      serviceExists := false;
      if last {
        serviceExists := ReleaseService(path, x.path);
      }
    }

    /** `update_receive_address`: `x` may have a new path and new types.  What
        it listens to, and the services, change as `Readdressed` says.  With
        neither an address nor a path the service of NULL is looked for.  The
        assertion fails if and only if the flag for the old service meets a
        conflict of the new path; where assertions are compiled out the state
        is as stated. */
    method Update(x: Receiver, inEnsemble: bool, serviceOk: bool) returns (outcome: Outcome)
      requires Valid() && SettledBut(x) && x in known
      requires x.path.Some? ==> x.path.value != ""
      modifies `addresses, `methods, `services, known, addresses
      ensures Valid() && (outcome != NullPath ==> Settled())
      ensures Named(old(View()).Values)
      ensures forall y :: y in known ==> y.path == old(y.path) && y.types == old(y.types)
      ensures outcome == EndOf(old(View()), x, x.path, x.types)
      ensures Now() == if outcome == NullPath then old(Now())
                       else Readdressed(old(Now()), x, x.path, x.types, inEnsemble && serviceOk)
    {
      hide HasService, Service, AnyHasService, Clash, Named, ServiceKept, Joined, Left;
      hide Valid, Linked, Separate, PathsOk, Active, View;
      ActiveIsUsed();
      AddressHasPath(x);
      outcome := Done;
      var addr := x.address;
      if addr == null {
        if x.path == None {
          return NullPath;
        }
        var _ := AddReceive(x, false, inEnsemble, serviceOk);
        return;
      }
      if x.path == Some(addr.path) && x.types == addr.types {
        return;
      }
      var serviceExists := Leave(x);
      if x.path.Some? {
        assert forall i :: 0 <= i < |addresses| ==> addresses[i] in old(addresses);
        var asserted := AddReceive(x, serviceExists, inEnsemble, serviceOk);
        if asserted { outcome := AssertionFailed; }
      }
    }

    /** `remove_o2receive`: the path is set aside while `x` is detached. */
    method RemoveReceive(x: Receiver)
      requires Valid() && Settled() && x in known
      modifies `addresses, `methods, `services, known, addresses
      ensures Valid() && Settled()
      ensures forall y :: y in known ==> y.path == old(y.path) && y.types == old(y.types)
      ensures Named(old(View()).Values)
      ensures Now() == Readdressed(old(Now()), x, None, x.types, true)
    {
      hide HasService, Service, AnyHasService, Clash, Named, Last, ServiceKept, Joined, Left;
      hide Valid, Linked, Separate, PathsOk, Active, View;
      ActiveIsUsed();
      AddressHasPath(x);
      if x.address == null {
        return;
      }
      var temp := x.path;
      x.path := None;
      var _ := Update(x, true, true);
      x.path := temp;
    }

    // ------------------------------------------------------------------
    // What the Pd objects do
    // ------------------------------------------------------------------

    /** A new receiver, not active yet. */
    method New() returns (x: Receiver)
      requires Valid() && Settled()
      modifies `known
      ensures Valid() && Settled()
      ensures fresh(x) && known == old(known) + {x} && View() == old(View())
      ensures x.path == None && x.types == None && x.address == null
    {
      hide NoRepeats, Separate, Used, Active;
      x := new Receiver();
      known := known + {x};
    }

    /** An "address" message: a path, unless it is left out, and types, none if
        they are left out.  A receiver that is not active must get a path, now
        or before. */
    method Address(x: Receiver, path: Option<string>, types: Option<string>, inEnsemble: bool, serviceOk: bool)
      returns (outcome: Outcome)
      requires Valid() && Settled() && x in known
      requires path.Some? ==> path.value != ""
      requires x.path.Some? ==> x.path.value != ""
      modifies `addresses, `methods, `services, known, addresses
      ensures Valid() && (outcome != NullPath ==> Settled())
      ensures x.path == (if path.Some? then path else old(x.path)) && x.types == types
      ensures Named(old(View()).Values)
      ensures outcome == EndOf(old(View()), x, x.path, types)
      ensures Now() == if outcome == NullPath then old(Now())
                       else Readdressed(old(Now()), x, x.path, types, inEnsemble && serviceOk)
    {
      hide Valid, View, Readdressed, Named;
      if path.Some? {
        x.path := path;
      }
      x.types := types;
      outcome := Update(x, inEnsemble, serviceOk);
    }

    /** A "types" message is refused unless the receiver is active. */
    method Types(x: Receiver, types: Option<string>, inEnsemble: bool, serviceOk: bool) returns (outcome: Outcome)
      requires Valid() && Settled() && x in known
      requires x.path.Some? ==> x.path.value != ""
      modifies `addresses, `methods, `services, known, addresses
      ensures Valid() && Settled()
      ensures x.path == old(x.path)
      ensures old(x.address) == null ==> x.types == old(x.types) && Now() == old(Now()) && outcome == Done
      ensures Named(old(View()).Values)
      ensures old(x.address) != null ==>
                && x.types == types && outcome == EndOf(old(View()), x, x.path, types)
                && Now() == Readdressed(old(Now()), x, x.path, types, inEnsemble && serviceOk)
    {
      hide Valid, View, Readdressed, Named, EndOf, Active, Linked, Separate, PathsOk;
      ActiveIsUsed();
      AddressHasPath(x);
      if x.address == null {
        return Done;
      }
      ActiveEndsWell(View(), x, x.path, types);
      x.types := types;
      outcome := Update(x, inEnsemble, serviceOk);
    }

    /** A "disable" message. */
    method Disable(x: Receiver, inEnsemble: bool)
      requires Valid() && Settled() && x in known
      modifies `addresses, `methods, `services, known, addresses
      ensures Valid() && Settled() && x.path == old(x.path) && x.types == old(x.types)
      ensures Named(old(View()).Values)
      ensures Now() == if inEnsemble then Readdressed(old(Now()), x, None, x.types, true) else old(Now())
    {
      ActiveIsUsed();
      hide Valid, View, Readdressed, Named;
      if inEnsemble {
        RemoveReceive(x);
      }
    }
  }
}
