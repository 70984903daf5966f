/** Addresses and services as the Pd externals compare them, pd/o2pd.c.  A
    string stands for the characters before the terminating null. */
module PdAddresses {
  import opened Common

  /** The path and the type string of a handler; no type string takes any. */
  datatype Addr = Addr(path: string, types: Option<string>)

  const SERVICE_SIZE := 64

  // ---------------------------------------------------------------------
  // Conflicts
  // ---------------------------------------------------------------------

  /** All nodes of `a` are the first nodes of `b`, and `b` has more. */
  predicate NodePrefix(a: string, b: string) {
    |a| < |b| && a <= b && b[|a|] == '/'
  }

  datatype Relation = PrefixFound | NoMatch | Identical

  function Compare(a: string, b: string): Relation {
    if a == b then Identical
    else if NodePrefix(a, b) || NodePrefix(b, a) then PrefixFound
    else NoMatch
  }

  /** `check_address_conflict`. */
  method CheckAddressConflict(str1: string, str2: string) returns (r: Relation)
    ensures r == Compare(str1, str2)
  {
    var i := 0;
    while i < |str1| && i < |str2|
      invariant i <= |str1| && i <= |str2| && str1[..i] == str2[..i]
    {
      if str1[i] != str2[i] {
        assert !(str1 <= str2) && !(str2 <= str1);
        return NoMatch;
      }
      i := i + 1;
    }
    assert i == |str1| ==> str1[..i] == str1;
    assert i == |str2| ==> str2[..i] == str2;
    if i == |str1| && i == |str2| {
      return Identical;
    }
    if (i == |str1| && str2[i] == '/') || (i == |str2| && str1[i] == '/') {
      return PrefixFound;
    }
    r := NoMatch;
  }

  /** Two handlers that cannot both be installed. */
  predicate Clash(a: Addr, b: Addr) {
    a != b && Compare(a.path, b.path) != NoMatch
  }

  ghost predicate ConflictFree(s: set<Addr>) {
    forall a, b :: a in s && b in s ==> !Clash(a, b)
  }

  /** A handler for `a` gets messages to the path `p`. */
  predicate Covers(a: string, p: string) {
    a == p || NodePrefix(a, p)
  }

  /** What freedom from conflict is for: of any path, at most one of the
      installed handlers gets the messages; and a conflict is exactly a path
      that two handlers would get. */
  lemma ConflictFreeIff(s: set<Addr>)
    ensures ConflictFree(s) <==>
              forall a, b, p :: a in s && b in s && Covers(a.path, p) && Covers(b.path, p) ==> a == b
  {
    if ConflictFree(s) {
      forall a, b, p | a in s && b in s && Covers(a.path, p) && Covers(b.path, p) ensures a == b {
        CoversBoth(a.path, b.path, p);
        assert !Clash(a, b);
      }
    } else {
      var a, b :| a in s && b in s && Clash(a, b);
      var p := if NodePrefix(a.path, b.path) then b.path else a.path;
      assert Covers(a.path, p) && Covers(b.path, p);
    }
  }

  lemma CoversBoth(a: string, b: string, p: string)
    requires Covers(a, p) && Covers(b, p)
    ensures Compare(a, b) != NoMatch
  {
    assert p[..|a|] == a && p[..|b|] == b;
    if |a| < |b| {
      assert a == p[..|b|][..|a|] && b[|a|] == p[|a|];
    } else if |b| < |a| {
      assert b == p[..|a|][..|b|] && a[|b|] == p[|b|];
    }
  }

  // ---------------------------------------------------------------------
  // Services
  // ---------------------------------------------------------------------

  /** Where the first node of `path` ends, if it ends before position `limit`. */
  function NodeEnd(path: string, i: nat, limit: nat): (e: nat)
    requires i <= |path| && i <= limit
    ensures i <= e <= |path| && e <= limit
    ensures forall k :: i <= k < e ==> path[k] != '/'
    ensures e == |path| || e == limit || path[e] == '/'
    decreases |path| - i
  {
    if i < |path| && i < limit && path[i] != '/' then NodeEnd(path, i + 1, limit) else i
  }

  /** The first character and the first node, at most 63 characters in all. */
  function Service(path: string): (s: string)
    requires path != ""
    ensures s != "" && s <= path
  {
    path[..NodeEnd(path, 1, SERVICE_SIZE - 1)]
  }

  /** `extract_service`. */
  method ExtractService(path: string) returns (service: string)
    requires path != ""
    ensures service == Service(path)
  {
    service := [path[0]];
    var i := 1;
    while i < |path| && path[i] != '/' && i < SERVICE_SIZE - 1
      invariant 1 <= i <= |path| && i <= SERVICE_SIZE - 1 && service == path[..i]
      invariant NodeEnd(path, 1, SERVICE_SIZE - 1) == NodeEnd(path, i, SERVICE_SIZE - 1)
    {
      service := service + [path[i]];
      i := i + 1;
    }
  }

  /** The first node of `path` is that of `service`; the first characters are
      not compared. */
  predicate HasService(path: string, service: string)
    requires path != "" && service != ""
  {
    && service[1..] <= path[1..]
    && (|path| == |service| || path[|service|] == '/')
  }

  /** `path_has_service`. */
  method PathHasService(path: string, service: string) returns (r: bool)
    requires path != "" && service != ""
    ensures r == HasService(path, service)
  {
    var i := 1;
    while i < |service|
      invariant 1 <= i <= |service| && i <= |path| && service[1..i] == path[1..i]
    {
      if i == |path| || path[i] != service[i] {
        assert !(service[1..] <= path[1..]) by {
          assert i < |path| ==> service[1..][i - 1] != path[1..][i - 1];
        }
        return false;
      }
      assert service[1..i + 1] == service[1..i] + [service[i]];
      assert path[1..i + 1] == path[1..i] + [path[i]];
      i := i + 1;
    }
    assert service[1..] == service[1..i];
    assert path[1..][..i - 1] == path[1..i];
    r := i == |path| || path[i] == '/';
  }

  /** The name a service is offered under, without the first character. */
  function ServiceName(path: string): string
    requires path != ""
  {
    Service(path)[1..]
  }

  /** The first node of `path` fits in the buffer for service names. */
  predicate Fits(path: string)
    requires path != ""
  {
    |Service(path)| == |path| || path[|Service(path)|] == '/'
  }

  /** The service of a path: its whole first node. */
  function WholeName(path: string): string
    requires path != ""
  {
    path[1..NodeEnd(path, 1, |path|)]
  }

  /** A name is cut short if and only if it has 63 characters or more. */
  lemma FitsIff(path: string)
    requires path != ""
    ensures Fits(path) <==> WholeName(path) == ServiceName(path)
    ensures Fits(path) <==> |WholeName(path)| < SERVICE_SIZE - 1
    ensures |ServiceName(path)| < SERVICE_SIZE - 1
  {
    var e, whole := NodeEnd(path, 1, SERVICE_SIZE - 1), NodeEnd(path, 1, |path|);
    if Fits(path) {
      assert e == whole;
    } else {
      assert e == SERVICE_SIZE - 1 && path[e] != '/' && whole > e;
    }
  }

  /** A path has the service of another if and only if they have the same
      service name and it was not cut short. */
  lemma HasServiceIff(p: string, q: string)
    requires p != "" && q != ""
    ensures HasService(p, Service(q)) <==> ServiceName(p) == ServiceName(q) && Fits(p)
  {
    var s := Service(q);
    if HasService(p, s) {
      assert s[1..] == p[1..][..|s| - 1];
      forall k | 1 <= k < |s| ensures p[k] == s[k] == q[k] != '/' {
        assert s[1..][k - 1] == p[1..][k - 1];
      }
    }
    if ServiceName(p) == ServiceName(q) && Fits(p) {
      assert |Service(p)| == |s|;
      assert Service(p)[1..] == p[1..][..|s| - 1];
    }
  }

  // ---------------------------------------------------------------------
  // Who listens to what
  // ---------------------------------------------------------------------

  /** For each receiver that is active, what it listens to. */
  type Listening<!R> = map<R, Addr>

  ghost predicate AnyHasService(active: set<Addr>, service: string)
    requires service != "" && Named(active)
  {
    exists a :: a in active && HasService(a.path, service)
  }

  ghost predicate Named(active: set<Addr>) {
    forall a :: a in active ==> a.path != ""
  }

  /** No other receiver uses the handler of `x`. */
  ghost predicate Last<R>(v: Listening<R>, x: R) {
    x in v && v[x] !in (v - {x}).Values
  }

  /** When the last receiver leaves a handler: is its service still wanted, by
      another handler or by the new path of the receiver itself? */
  ghost predicate ServiceKept<R>(v: Listening<R>, x: R, path: Option<string>)
    requires Named(v.Values) && (path.Some? ==> path.value != "")
    requires x in v
  {
    assert v[x] in v.Values;
    var service := Service(v[x].path);
    || AnyHasService((v - {x}).Values, service)
    || (path.Some? && HasService(path.value, service))
  }

  datatype Registry<!R> = Registry(view: Listening<R>, services: set<string>)

  /** A receiver that is not active tries to become active.  `exists'` says that
      its service is known to exist; `granted` whether O2 would create it. */
  ghost function Joined<R>(r: Registry<R>, x: R, want: Addr, exists': bool, granted: bool): Registry<R>
    requires Named(r.view.Values) && want.path != ""
  {
    var on := r.(view := r.view[x := want]);
    if exists b :: b in r.view.Values && Clash(b, want) then r
    else if want in r.view.Values then on
    else if exists' || AnyHasService(r.view.Values, Service(want.path)) then on
    else if granted then on.(services := r.services + {ServiceName(want.path)})
    else r
  }

  /** A receiver leaves its handler. */
  ghost function Left<R>(r: Registry<R>, x: R, path: Option<string>): Registry<R>
    requires Named(r.view.Values) && x in r.view && (path.Some? ==> path.value != "")
  {
    Registry(
      r.view - {x},
      assert r.view[x] in r.view.Values;
      if Last(r.view, x) && !ServiceKept(r.view, x, path)
      then r.services - {ServiceName(r.view[x].path)} else r.services)
  }

  /** A receiver is given the address `path`, `types`, or none. */
  ghost function Readdressed<R>(r: Registry<R>, x: R, path: Option<string>, types: Option<string>,
                                granted: bool): Registry<R>
    requires Named(r.view.Values) && (path.Some? ==> path.value != "")
  {
    if x in r.view && path == Some(r.view[x].path) && types == r.view[x].types then r
    else
      var without := if x in r.view then Left(r, x, path) else r;
      if path == None then without
      else Joined(without, x, Addr(path.value, types),
                  Last(r.view, x) && ServiceKept(r.view, x, path), granted)
  }

  // ---------------------------------------------------------------------
  // What holds over all changes
  // ---------------------------------------------------------------------

  lemma ReaddressedKeepsConflictFree<R>(r: Registry<R>, x: R, path: Option<string>, types: Option<string>,
                                        granted: bool)
    requires Named(r.view.Values) && (path.Some? ==> path.value != "")
    requires ConflictFree(r.view.Values)
    ensures ConflictFree(Readdressed(r, x, path, types, granted).view.Values)
    ensures Named(Readdressed(r, x, path, types, granted).view.Values)
  {
    hide AnyHasService, ServiceKept;
    assert (r.view - {x}).Values <= r.view.Values;
    if path.Some? {
      ValuesWith(r.view - {x}, x, Addr(path.value, types));
      assert x !in r.view ==> r.view - {x} == r.view;
    }
  }

  lemma ValuesWith<R>(v: Listening<R>, x: R, want: Addr)
    requires x !in v
    ensures v[x := want].Values == v.Values + {want}
  {
    assert v[x := want][x] == want;
    forall a | a in v.Values ensures a in v[x := want].Values {
      var y :| y in v && v[y] == a;
      assert v[x := want][y] == a;
    }
  }

  /** Nobody else is disturbed. */
  lemma OthersKeepListening<R>(r: Registry<R>, x: R, path: Option<string>, types: Option<string>, granted: bool)
    requires Named(r.view.Values) && (path.Some? ==> path.value != "")
    ensures Readdressed(r, x, path, types, granted).view - {x} == r.view - {x}
  {
  }

  /** To disable a receiver and enable it again, when its service can be
      created, changes nothing if and only if the service was there under the
      name that is freed, or is not freed at all. */
  lemma DisableThenBangRestoresIff<R>(r: Registry<R>, x: R)
    requires Named(r.view.Values) && ConflictFree(r.view.Values) && x in r.view
    ensures r.view[x].path != "" && Named(Readdressed(r, x, None, r.view[x].types, true).view.Values)
    ensures var a := r.view[x];
            Readdressed(Readdressed(r, x, None, a.types, true), x, Some(a.path), a.types, true) == r
            <==> (Last(r.view, x) && !ServiceKept(r.view, x, None) ==> ServiceName(a.path) in r.services)
  {
    var a := r.view[x];
    assert a in r.view.Values;
    var off := Readdressed(r, x, None, a.types, true);
    assert off.view == r.view - {x};
    forall b | b in off.view.Values ensures b in r.view.Values && !Clash(b, a) {
    }
    assert off.view[x := a] == r.view;
    if Last(r.view, x) && !AnyHasService(off.view.Values, Service(a.path)) && ServiceName(a.path) in r.services {
      assert r.services - {ServiceName(a.path)} + {ServiceName(a.path)} == r.services;
    }
  }

  /** INV_7: every service in use was created. */
  ghost predicate Offered<R>(r: Registry<R>)
    requires Named(r.view.Values)
  {
    forall a :: a in r.view.Values ==> WholeName(a.path) in r.services
  }

  /** A new handler, which clashes with none. */
  ghost predicate CanJoin(active: set<Addr>, want: Addr) {
    want !in active && forall b :: b in active ==> !Clash(b, want)
  }

  /** One way to break INV_7: the receiver leaves a handler it was the last to
      use, the service of the old address is still wanted, and this is mistaken
      for the service of the new one. */
  ghost predicate Overlooked<R>(r: Registry<R>, x: R, want: Addr)
    requires Named(r.view.Values) && want.path != ""
  {
    && Last(r.view, x) && ServiceKept(r.view, x, Some(want.path))
    && WholeName(want.path) !in r.services && CanJoin((r.view - {x}).Values, want)
  }

  /** The other way: the name of the new service is cut short, and the service
      is created, or taken to be there, under another name. */
  ghost predicate CutShort<R>(r: Registry<R>, x: R, want: Addr, granted: bool)
    requires Named(r.view.Values) && want.path != ""
  {
    var others := (r.view - {x}).Values;
    && !Fits(want.path) && WholeName(want.path) !in r.services && CanJoin(others, want)
    && !(Last(r.view, x) && ServiceKept(r.view, x, Some(want.path)))
    && (granted || AnyHasService(others, Service(want.path)))
  }

  /** A change of address keeps INV_7 if and only if neither happens. */
  lemma ServiceOfferedIff<R>(r: Registry<R>, x: R, want: Addr, granted: bool)
    requires Named(r.view.Values) && want.path != "" && Offered(r)
    ensures Named(Readdressed(r, x, Some(want.path), want.types, granted).view.Values)
    ensures Offered(Readdressed(r, x, Some(want.path), want.types, granted)) <==>
              !Overlooked(r, x, want) && !CutShort(r, x, want, granted)
  {
    hide HasService, Service, ServiceName, WholeName, Fits, Clash, AnyHasService, Joined;
    OthersOffered(r, x);
    if x !in r.view {
      assert r.view - {x} == r.view;
      JoinedIsOfferedIff(r, x, want, granted);
    } else {
      assert r.view[x] in r.view.Values;
      if want != r.view[x] {
        if !Last(r.view, x) {
          JoinedIsOfferedIff(Left(r, x, Some(want.path)), x, want, granted);
        } else if ServiceKept(r.view, x, Some(want.path)) {
          JoinsKeptIff(Left(r, x, Some(want.path)), x, want, granted);
        } else {
          FreedKeepsOthers(r, x, want);
          JoinedIsOfferedIff(Left(r, x, Some(want.path)), x, want, granted);
        }
      }
    }
  }

  lemma OthersOffered<R>(r: Registry<R>, x: R)
    requires Named(r.view.Values) && Offered(r)
    ensures Named((r.view - {x}).Values) && (r.view - {x}).Values <= r.view.Values
    ensures Offered(Registry(r.view - {x}, r.services))
  {
  }

  /** A service is looked for, and created if it is not there. */
  lemma JoinedIsOfferedIff<R>(r: Registry<R>, x: R, want: Addr, granted: bool)
    requires Named(r.view.Values) && want.path != "" && Offered(r) && x !in r.view
    ensures Named(Joined(r, x, want, false, granted).view.Values)
    ensures Offered(Joined(r, x, want, false, granted)) <==>
              !(&& !Fits(want.path) && WholeName(want.path) !in r.services && CanJoin(r.view.Values, want)
                && (granted || AnyHasService(r.view.Values, Service(want.path))))
  {
    ValuesWith(r.view, x, want);
    FitsIff(want.path);
    if AnyHasService(r.view.Values, Service(want.path)) {
      var b :| b in r.view.Values && HasService(b.path, Service(want.path));
      HasServiceIff(b.path, want.path);
      FitsIff(b.path);
      assert ServiceName(want.path) in r.services;
    }
    hide HasService, Service, ServiceName, WholeName, Fits, Clash, AnyHasService;
  }

  /** A service is taken to be there. */
  lemma JoinsKeptIff<R>(r: Registry<R>, x: R, want: Addr, granted: bool)
    requires Named(r.view.Values) && want.path != "" && Offered(r) && x !in r.view
    ensures Named(Joined(r, x, want, true, granted).view.Values)
    ensures Offered(Joined(r, x, want, true, granted)) <==>
              !(WholeName(want.path) !in r.services && CanJoin(r.view.Values, want))
  {
    hide HasService, Service, ServiceName, WholeName, Fits, Clash, AnyHasService;
    ValuesWith(r.view, x, want);
  }

  /** Nobody else loses a service that is freed, nor does a long name get lost. */
  lemma FreedKeepsOthers<R>(r: Registry<R>, x: R, want: Addr)
    requires Named(r.view.Values) && want.path != "" && Offered(r)
    requires Last(r.view, x) && !ServiceKept(r.view, x, Some(want.path))
    ensures var left := Left(r, x, Some(want.path));
            && Named(left.view.Values) && Offered(left)
            && (!Fits(want.path) ==> (WholeName(want.path) in left.services <==> WholeName(want.path) in r.services))
  {
    var old' := r.view[x];
    assert old' in r.view.Values;
    FitsIff(old'.path);
    FitsIff(want.path);
    OthersOffered(r, x);
    forall b | b in (r.view - {x}).Values ensures WholeName(b.path) != ServiceName(old'.path) {
      FitsIff(b.path);
      HasServiceIff(b.path, old'.path);
      assert !HasService(b.path, Service(old'.path));
    }
    hide HasService, Service, ServiceName, WholeName, Fits;
  }

  // ---------------------------------------------------------------------
  // Who gets to listen, and which services stay
  // ---------------------------------------------------------------------

  /** Some handler would clash with a new one. */
  ghost predicate Conflicts(active: set<Addr>, want: Addr) {
    exists b :: b in active && Clash(b, want)
  }

  /** A receiver that is given a new address listens to it afterwards if and only
      if it clashes with no other, and others use the same handler, or its
      service, or its old service is kept, or O2 creates the service.  Otherwise
      it listens to nothing. */
  lemma ListensIff<R>(r: Registry<R>, x: R, want: Addr, granted: bool)
    requires Named(r.view.Values) && want.path != "" && (x in r.view ==> want != r.view[x])
    ensures Named((r.view - {x}).Values)
    ensures var others, v := (r.view - {x}).Values, Readdressed(r, x, Some(want.path), want.types, granted).view;
            && (x in v <==>
                  && !Conflicts(others, want)
                  && (|| want in others || AnyHasService(others, Service(want.path)) || granted
                      || (Last(r.view, x) && ServiceKept(r.view, x, Some(want.path)))))
            && (x in v ==> v[x] == want)
  {
    assert (r.view - {x}).Values <= r.view.Values;
    assert x !in r.view ==> r.view - {x} == r.view;
    hide HasService, Service, ServiceName, Clash, AnyHasService, ServiceKept;
  }

  /** INV_8: every service that was created, and not freed, is in use. */
  ghost predicate Needed<R>(r: Registry<R>)
    requires Named(r.view.Values)
  {
    forall s :: s in r.services ==> InUse(r.view.Values, s)
  }

  ghost predicate InUse(active: set<Addr>, name: string)
    requires Named(active)
  {
    exists a :: a in active && WholeName(a.path) == name
  }

  /** Names of services are cut off before they are created. */
  predicate Short(services: set<string>) {
    forall s :: s in services ==> |s| < SERVICE_SIZE - 1
  }

  /** A handler that a path clashes with has the service of the path. */
  lemma ConflictHasService(active: set<Addr>, want: Addr, path: string)
    requires Named(active) && want.path != "" && path != "" && HasService(want.path, Service(path))
    ensures Conflicts(active, want) ==> AnyHasService(active, Service(path))
  {
    if Conflicts(active, want) {
      var b :| b in active && Clash(b, want);
      var s := Service(path);
      forall k | 1 <= k < |s| ensures want.path[k] == s[k] != '/' {
        assert s[1..][k - 1] == want.path[1..][k - 1];
      }
      forall k | 1 <= k < |s| && k < |b.path| ensures b.path[k] == s[k] {
      }
      assert |b.path| >= |s|;
      assert s[1..] == b.path[1..][..|s| - 1];
      assert HasService(b.path, s);
    }
  }

  /** The way to break INV_8: a service is created under a name that was cut
      short. */
  ghost predicate CreatedCut<R>(r: Registry<R>, x: R, want: Addr, granted: bool)
    requires Named(r.view.Values) && want.path != ""
  {
    var others := (r.view - {x}).Values;
    && !Fits(want.path) && CanJoin(others, want) && granted && Named(others)
    && !(Last(r.view, x) && ServiceKept(r.view, x, Some(want.path)))
    && !AnyHasService(others, Service(want.path))
  }

  /** A change of address keeps INV_8 if and only if that does not happen. */
  lemma ServiceNeededIff<R>(r: Registry<R>, x: R, want: Addr, granted: bool)
    requires Named(r.view.Values) && want.path != "" && Needed(r) && Short(r.services)
    requires x in r.view ==> want != r.view[x]
    ensures var r' := Readdressed(r, x, Some(want.path), want.types, granted);
            && Named(r'.view.Values) && Short(r'.services)
            && (Needed(r') <==> !CreatedCut(r, x, want, granted))
  {
    hide HasService, Service, ServiceName, WholeName, Fits, Clash, AnyHasService, Joined, InUse;
    assert (r.view - {x}).Values <= r.view.Values;
    if x !in r.view {
      assert r.view - {x} == r.view;
      JoinedIsNeededIff(r, x, want, granted);
    } else {
      assert r.view[x] in r.view.Values;
      var left := Left(r, x, Some(want.path));
      if Last(r.view, x) && ServiceKept(r.view, x, Some(want.path)) {
        KeptIsNeeded(r, x, want, granted);
      } else {
        LeftIsNeeded(r, x, Some(want.path));
        JoinedIsNeededIff(left, x, want, granted);
      }
    }
  }

  /** The old service is kept, by others or for the new path only. */
  lemma KeptIsNeeded<R>(r: Registry<R>, x: R, want: Addr, granted: bool)
    requires Named(r.view.Values) && want.path != "" && Needed(r) && Short(r.services)
    requires Last(r.view, x) && want != r.view[x] && ServiceKept(r.view, x, Some(want.path))
    ensures var r' := Readdressed(r, x, Some(want.path), want.types, granted);
            && Named(r'.view.Values) && Short(r'.services)
            && Needed(r')
  {
    var a := r.view[x];
    assert a in r.view.Values;
    var others := (r.view - {x}).Values;
    ValuesWith(r.view - {x}, x, want);
    KeptByOthers(r, x);
    if !AnyHasService(others, Service(a.path)) {
      HasServiceIff(want.path, a.path);
      FitsIff(a.path);
      FitsIff(want.path);
      ConflictHasService(others, want, a.path);
      UsedByOthers(r, x);
    }
    hide HasService, Service, ServiceName, WholeName, Fits, Clash, AnyHasService;
    var r' := Readdressed(r, x, Some(want.path), want.types, granted);
    if x in r'.view {
      assert want in r'.view.Values;
      forall s | InUse(others, s) ensures InUse(r'.view.Values, s) {
        var b :| b in others && WholeName(b.path) == s;
        assert b in r'.view.Values;
      }
    }
  }

  /** A service that only the last user of a handler uses is that of the handler. */
  lemma UsedByOthers<R>(r: Registry<R>, x: R)
    requires Named(r.view.Values) && Needed(r) && x in r.view
    ensures r.view[x] in r.view.Values && Named((r.view - {x}).Values)
    ensures forall s :: s in r.services && s != WholeName(r.view[x].path) ==> InUse((r.view - {x}).Values, s)
  {
    assert r.view[x] in r.view.Values;
    forall s | s in r.services && s != WholeName(r.view[x].path) ensures InUse((r.view - {x}).Values, s) {
      var b :| b in r.view.Values && WholeName(b.path) == s;
      var y :| y in r.view && r.view[y] == b;
      assert (r.view - {x})[y] == b;
    }
  }

  /** To disable a receiver keeps INV_8. */
  lemma DisabledKeepsNeeded<R>(r: Registry<R>, x: R, types: Option<string>, granted: bool)
    requires Named(r.view.Values) && Needed(r) && Short(r.services)
    ensures var r' := Readdressed(r, x, None, types, granted);
            Named(r'.view.Values) && Short(r'.services) && Needed(r')
  {
    if x in r.view {
      assert r.view[x] in r.view.Values;
      hide HasService, Service, ServiceName, WholeName, Fits, AnyHasService, InUse;
      if Last(r.view, x) && ServiceKept(r.view, x, None) {
        KeptByOthers(r, x);
      } else {
        LeftIsNeeded(r, x, None);
      }
    }
  }

  /** Others use what they used; what is not used any more is freed. */
  lemma LeftIsNeeded<R>(r: Registry<R>, x: R, path: Option<string>)
    requires Named(r.view.Values) && Needed(r) && Short(r.services) && x in r.view
    requires path.Some? ==> path.value != ""
    requires !(Last(r.view, x) && ServiceKept(r.view, x, path))
    ensures var left := Left(r, x, path);
            Named(left.view.Values) && Needed(left) && Short(left.services)
  {
    var a := r.view[x];
    assert a in r.view.Values;
    var others := (r.view - {x}).Values;
    FitsIff(a.path);
    hide HasService, Service, ServiceName, WholeName, Fits, AnyHasService;
    forall s | s in Left(r, x, path).services ensures InUse(others, s) {
      var b :| b in r.view.Values && WholeName(b.path) == s;
      if b == a {
        if !Last(r.view, x) { assert b in others; }
      } else {
        var y :| y in r.view && r.view[y] == b;
        assert (r.view - {x})[y] == b;
      }
    }
  }

  lemma JoinedIsNeededIff<R>(r: Registry<R>, x: R, want: Addr, granted: bool)
    requires Named(r.view.Values) && want.path != "" && Needed(r) && Short(r.services) && x !in r.view
    ensures var r' := Joined(r, x, want, false, granted);
            && Named(r'.view.Values) && Short(r'.services)
            && (Needed(r') <==>
                  !(!Fits(want.path) && CanJoin(r.view.Values, want) && granted
                    && !AnyHasService(r.view.Values, Service(want.path))))
  {
    ValuesWith(r.view, x, want);
    FitsIff(want.path);
    if !AnyHasService(r.view.Values, Service(want.path)) { NotInUse(r.view.Values, want.path); }
    hide HasService, Service, ServiceName, WholeName, Fits, Clash, AnyHasService;
    var r' := Joined(r, x, want, false, granted);
    forall s | s in r.services && r'.view == r.view[x := want] ensures InUse(r'.view.Values, s) {
      var b :| b in r.view.Values && WholeName(b.path) == s;
      assert b in r'.view.Values;
    }
    if CanJoin(r.view.Values, want) && granted && !AnyHasService(r.view.Values, Service(want.path)) {
      assert r'.services == r.services + {ServiceName(want.path)};
      assert want in r'.view.Values;
      if Fits(want.path) {
        assert InUse(r'.view.Values, ServiceName(want.path));
      }
    }
  }

  /** A name that was cut short, and is not found in use, is not in use. */
  lemma NotInUse(active: set<Addr>, path: string)
    requires Named(active) && path != "" && !AnyHasService(active, Service(path))
    ensures !InUse(active, ServiceName(path))
  {
    if InUse(active, ServiceName(path)) {
      var b :| b in active && WholeName(b.path) == ServiceName(path);
      FitsIff(path);
      FitsIff(b.path);
      HasServiceIff(b.path, path);
    }
  }

  lemma KeptByOthers<R>(r: Registry<R>, x: R)
    requires Named(r.view.Values) && Needed(r) && Short(r.services) && x in r.view
    ensures r.view[x] in r.view.Values
    ensures Named((r.view - {x}).Values)
    ensures AnyHasService((r.view - {x}).Values, Service(r.view[x].path)) ==> Needed(Registry(r.view - {x}, r.services))
  {
    var a := r.view[x];
    assert a in r.view.Values;
    var others := (r.view - {x}).Values;
    if AnyHasService(others, Service(a.path)) {
      var b :| b in others && HasService(b.path, Service(a.path));
      HasServiceIff(b.path, a.path);
      FitsIff(a.path);
      FitsIff(b.path);
      forall s | s in r.services ensures InUse(others, s) {
        var e :| e in r.view.Values && WholeName(e.path) == s;
        if e == a {
          assert |s| < SERVICE_SIZE - 1;
          assert WholeName(b.path) == s;
        } else {
          var y :| y in r.view && r.view[y] == e;
          assert (r.view - {x})[y] == e;
        }
      }
    }
  }

  /** It happens: of two receivers of the service "a" one moves to "b". */
  lemma ServiceIsOverlooked<R>(x: R, y: R, granted: bool)
    requires x != y
    ensures var r := Registry(map[x := Addr("/a/1", None), y := Addr("/a/2", None)], {"a"});
            && Named(r.view.Values) && Offered(r) && ConflictFree(r.view.Values)
            && var r' := Readdressed(r, x, Some("/b/1"), None, granted);
               Named(r'.view.Values) && !Offered(r')
  {
    var ax, ay, want := Addr("/a/1", None), Addr("/a/2", None), Addr("/b/1", None);
    var view := map[x := ax, y := ay];
    var r := Registry(view, {"a"});
    TwoValues(view, x, y);
    PathsOfExample();
    hide HasService, Service, ServiceName, WholeName, Compare;
    assert Overlooked(r, x, want);
    ServiceOfferedIff(r, x, want, granted);
  }

  lemma TwoValues<R>(v: Listening<R>, x: R, y: R)
    requires x != y && v.Keys == {x, y}
    ensures v.Values == {v[x], v[y]} && (v - {x}).Values == {v[y]}
  {
    assert (v - {x})[y] == v[y];
  }

  lemma PathsOfExample()
    ensures WholeName("/a/1") == "a" && WholeName("/a/2") == "a" && WholeName("/b/1") == "b"
    ensures HasService("/a/2", Service("/a/1")) && "/a/1" != "/a/2"
    ensures Compare("/a/2", "/b/1") == NoMatch
    ensures Compare("/a/1", "/a/2") == NoMatch && Compare("/a/2", "/a/1") == NoMatch
  {
    var p, q, n := "/a/1", "/a/2", "/b/1";
    assert p[1] == 'a' && q[1] == 'a' && n[1] == 'b' && p[2] == '/' && q[2] == '/' && n[2] == '/';
    assert p[3] == '1' && q[3] == '2';
    assert NodeEnd(p, 2, 63) == 2 && NodeEnd(p, 2, 4) == 2 && NodeEnd(q, 2, 4) == 2 && NodeEnd(n, 2, 4) == 2;
    assert p[..2] == "/a" && q[..2] == "/a" && n[..2] == "/b";
    assert p[..2][1..] == "a" && n[..2][1..] == "b";
    assert q[1..][0] == 'a';
    NotPrefix(q, n, 1);
    NotPrefix(p, q, 3);
  }

  lemma NotPrefix(p: string, q: string, i: nat)
    requires i < |p| && i < |q| && p[i] != q[i]
    ensures Compare(p, q) == NoMatch && Compare(q, p) == NoMatch
  {
  }

  /** A path whose first node has 63 characters, one too many. */
  function LongPath(last: char): (p: string)
    ensures |p| == 66 && p[0] == '/' && p[64] == '/' && p[65] == last
    ensures forall k :: 1 <= k < 64 ==> p[k] == 'a'
  {
    "/" + seq(63, _ => 'a') + "/" + [last]
  }

  /** It happens: the first receiver of a service whose name has 63 characters,
      as many as O2 allows.  A service of 62 characters is created. */
  lemma LongServiceIsCutShort<R>(x: R)
    ensures var r: Registry<R> := Registry(map[], {});
            && Named(r.view.Values) && Offered(r)
            && var r' := Readdressed(r, x, Some(LongPath('1')), None, true);
               && r' == Registry(map[x := Addr(LongPath('1'), None)], {seq(62, _ => 'a')})
               && Named(r'.view.Values) && !Offered(r') && !Needed(r')
  {
    var r: Registry<R> := Registry(map[], {});
    var want := Addr(LongPath('1'), None);
    var p := want.path;
    assert NodeEnd(p, 1, 63) == 63;
    assert p[..63][1..] == seq(62, _ => 'a');
    assert (r.view - {x}).Values == {};
    assert CutShort(r, x, want, true);
    ServiceOfferedIff(r, x, want, true);
    ServiceNeededIff(r, x, want, true);
  }
}
