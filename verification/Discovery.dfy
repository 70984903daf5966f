/** How processes of an ensemble find and connect to each other,
    src/discovery.cpp, without a hub: discovery messages may be lost, repeated
    and delayed at will, TCP messages arrive.  Of two processes the one with the
    lower name is the client. */
module Discovery {

  /** The place of a process name in the order of `strcmp`. */
  type Name = nat

  /** A version number. */
  type Version = bv32

  /** The kinds of discovery message. */
  datatype Dy = DyInfo | DyCallback | DyConnect

  /** `o2_message_source`: no connection, one from a process, or another. */
  datatype Source = NoSource | ProcSource | OtherSource

  datatype Err = Success | Fail

  /** What a process does to the network. */
  datatype Output =
    | CloseSource
    | SendCallback(to: Name)
    | ConnectTo(to: Name)
    | SourceIs(name: Name)

  datatype Reaction = Reaction(known: set<Name>, outputs: seq<Output>, err: Err)

  /** The versions agree under the mask. */
  predicate Compatible(v: Version, w: Version) {
    v & 0xFF0000 == w & 0xFF0000
  }

  /** So the third byte decides, whatever the others are. */
  lemma CompatibleIff(v: Version, w: Version)
    ensures Compatible(v, w) <==> (v >> 16) & 0xFF == (w >> 16) & 0xFF
    ensures Compatible(v, v) && !Compatible(v, v ^ 0x010000) && Compatible(v, v ^ 0xFF00FFFF)
  {
  }

  /** The reaction to a discovery message about `name`. */
  function React(me: Name, ourVersion: Version, known: set<Name>, name: Name, version: Version, dy: Dy,
                 source: Source): Reaction {
    var closes := dy == DyCallback && source != NoSource;
    var outputs := if closes then [CloseSource] else [];
    if !Compatible(version, ourVersion) then Reaction(known, outputs, Fail)
    else if dy == DyInfo || closes then
      if me == name || name in known then Reaction(known, outputs, Success)
      else if me > name then Reaction(known, outputs + [SendCallback(name)], Success)
      else Reaction(known + {name}, outputs + [ConnectTo(name)], Success)
    else if source != ProcSource || dy == DyCallback then Reaction(known, outputs, Fail)
    else Reaction(known + {name}, outputs + [SourceIs(name)], Success)
  }

  /** A message is refused if and only if the versions differ, or it has to come
      over a connection from a process and does not; then nobody gets known. */
  lemma RefusedIff(me: Name, ourVersion: Version, known: set<Name>, name: Name, version: Version, dy: Dy,
                   source: Source)
    ensures var r := React(me, ourVersion, known, name, version, dy, source);
            && (r.err == Fail <==>
                  || !Compatible(version, ourVersion)
                  || (dy == DyConnect && source != ProcSource) || (dy == DyCallback && source == NoSource))
            && (r.err == Fail ==> r.known == known && forall o :: o in r.outputs ==> o == CloseSource)
            && (CloseSource in r.outputs <==> dy == DyCallback && source != NoSource)
            && r.known <= known + {name}
  {
  }

  /** The process that runs the handlers. */
  class Process {
    const key: Name
    const version: Version
    /** The remote processes that have an entry in the path tree. */
    var pathTree: set<Name>
    /** What was done to the network, in order. */
    var outputs: seq<Output>

    constructor (key: Name, version: Version)
      ensures this.key == key && this.version == version && pathTree == {} && outputs == []
    {
      this.key, this.version, pathTree, outputs := key, version, {}, [];
    }

    /** `o2_discovered_a_remote_process`. */
    method Discovered(name: Name, remoteVersion: Version, dy: Dy, source: Source) returns (err: Err)
      modifies this
      ensures var r := React(key, version, old(pathTree), name, remoteVersion, dy, source);
              pathTree == r.known && outputs == old(outputs) + r.outputs && err == r.err
    {
      var dy' := dy;
      if dy == DyCallback && source != NoSource {
        outputs := outputs + [CloseSource];
        dy' := DyInfo;
      }
      err := DiscoveredName(name, remoteVersion, dy', source);
    }

    /** `o2_discovered_a_remote_process_name`. */
    method DiscoveredName(name: Name, remoteVersion: Version, dy: Dy, source: Source) returns (err: Err)
      requires dy == DyCallback ==> source == NoSource
      modifies this
      ensures var r := React(key, version, old(pathTree), name, remoteVersion, dy, source);
              pathTree == r.known && outputs == old(outputs) + r.outputs && err == r.err
    {
      if remoteVersion & 0xFF0000 != version & 0xFF0000 {
        return Fail;
      }
      if dy == DyInfo {
        if key == name {
          return Success;
        }
        if name in pathTree {
          return Success;
        }
        if key > name {
          outputs := outputs + [SendCallback(name)];
          return Success;
        }
        pathTree := pathTree + {name};
        outputs := outputs + [ConnectTo(name)];
      } else {
        if source != ProcSource {
          return Fail;
        }
        pathTree := pathTree + {name};
        outputs := outputs + [SourceIs(name)];
      }
      err := Success;
    }
  }

  // ---------------------------------------------------------------------
  // The ensemble
  // ---------------------------------------------------------------------

  /** TCP messages on their way. */
  datatype Message = Callback(sender: Name, to: Name) | Connect(sender: Name, to: Name)

  /** TCP connections, by the process that opened them. */
  datatype Connection = Temporary(opener: Name, to: Name) | Persistent(opener: Name, to: Name)

  /** `clientName` and `serverName` are the names that the two ends of a lasting
      connection were given: the end becomes the provider of that name. */
  datatype State = State(
    known: map<Name, set<Name>>,
    net: multiset<Message>,
    connections: multiset<Connection>,
    clientName: map<Connection, Name>,
    serverName: map<Connection, Name>)

  datatype Action =
    /** A broadcast of `about`, sent at any time before, reaches `hearer`. */
    | Hear(hearer: Name, about: Name)
    /** A TCP message arrives. */
    | Receive(m: Message)

  /** What the outputs of `me` do, when it handles a message that came over
      `via`. */
  function Apply(s: State, me: Name, via: Connection, outputs: seq<Output>): State
    decreases |outputs|
  {
    if outputs == [] then s else Apply(ApplyOne(s, me, via, outputs[0]), me, via, outputs[1..])
  }

  function ApplyOne(s: State, me: Name, via: Connection, output: Output): State {
    match output
    case CloseSource => s.(connections := s.connections - multiset{via})
    case SendCallback(to) => s.(net := s.net + multiset{Callback(me, to)},
                                connections := s.connections + multiset{Temporary(me, to)})
    case ConnectTo(to) => s.(net := s.net + multiset{Connect(me, to)},
                             connections := s.connections + multiset{Persistent(me, to)},
                             clientName := s.clientName[Persistent(me, to) := to])
    case SourceIs(name) => s.(serverName := s.serverName[via := name])
  }

  predicate CanStep(s: State, a: Action) {
    match a
    case Hear(hearer, about) => hearer in s.known && about in s.known
    case Receive(m) => m in s.net && m.to in s.known && m.sender in s.known
  }

  function Handle(s: State, versions: map<Name, Version>, me: Name, from: Name, dy: Dy, source: Source,
                  via: Connection): State
    requires me in s.known && s.known.Keys <= versions.Keys && from in versions
  {
    var r := React(me, versions[me], s.known[me], from, versions[from], dy, source);
    Apply(s.(known := s.known[me := r.known]), me, via, r.outputs)
  }

  function Step(s: State, versions: map<Name, Version>, a: Action): State
    requires CanStep(s, a) && s.known.Keys <= versions.Keys
  {
    match a
    case Hear(hearer, about) =>
      Handle(s, versions, hearer, about, DyInfo, NoSource, Temporary(about, hearer))
    case Receive(m) =>
      var s' := s.(net := s.net - multiset{m});
      match m
      case Callback(sender, to) => Handle(s', versions, to, sender, DyCallback, ProcSource, Temporary(sender, to))
      case Connect(sender, to) => Handle(s', versions, to, sender, DyConnect, ProcSource, Persistent(sender, to))
  }

  /** Nobody knows anybody. */
  function Start(versions: map<Name, Version>): State {
    State(map n | n in versions :: {}, multiset{}, multiset{}, map[], map[])
  }

  // ---------------------------------------------------------------------
  // Invariant
  // ---------------------------------------------------------------------

  /** All there is between `lo` and `hi`. */
  ghost predicate PairOk(s: State, versions: map<Name, Version>, lo: Name, hi: Name)
    requires lo in s.known && hi in s.known && lo in versions && hi in versions
  {
    && s.connections[Persistent(hi, lo)] == 0 && s.net[Connect(hi, lo)] == 0
    && s.connections[Temporary(lo, hi)] == 0 && s.net[Callback(lo, hi)] == 0
    && s.connections[Temporary(hi, lo)] == s.net[Callback(hi, lo)]
    && s.connections[Persistent(lo, hi)] == (if hi in s.known[lo] then 1 else 0)
    && s.net[Connect(lo, hi)] == (if hi in s.known[lo] && lo !in s.known[hi] then 1 else 0)
    && (lo in s.known[hi] ==> hi in s.known[lo])
    && NamedOk(s, lo, hi)
    && (s.net[Callback(hi, lo)] > 0 || hi in s.known[lo] ==> Compatible(versions[lo], versions[hi]))
  }

  /** Exactly the ends that know each other have been named, and by the right
      names; nothing was named in the other direction. */
  ghost predicate NamedOk(s: State, lo: Name, hi: Name)
    requires lo in s.known && hi in s.known
  {
    && (Persistent(lo, hi) in s.clientName <==> hi in s.known[lo])
    && (hi in s.known[lo] ==> s.clientName[Persistent(lo, hi)] == hi)
    && (Persistent(lo, hi) in s.serverName <==> lo in s.known[hi])
    && (lo in s.known[hi] ==> s.serverName[Persistent(lo, hi)] == lo)
    && Persistent(hi, lo) !in s.clientName && Persistent(hi, lo) !in s.serverName
  }

  ghost predicate Inv(s: State, versions: map<Name, Version>) {
    && s.known.Keys == versions.Keys
    && (forall lo, hi :: lo in versions && hi in versions && lo < hi ==> PairOk(s, versions, lo, hi))
    && (forall n, k :: n in versions && k in s.known[n] ==> k in versions && k != n)
    && (forall m :: m in s.net ==> m.sender in versions && m.to in versions && m.sender != m.to)
    && (forall c :: c in s.connections ==> c.opener in versions && c.to in versions && c.opener != c.to)
  }

  lemma StartIsOk(versions: map<Name, Version>)
    ensures Inv(Start(versions), versions)
  {
  }

  // ---------------------------------------------------------------------
  // What the steps amount to
  // ---------------------------------------------------------------------

  /** `me` learns of `from`. */
  function Introduce(s: State, versions: map<Name, Version>, me: Name, from: Name): State
    requires me in s.known && me in versions && from in versions
  {
    if me == from || from in s.known[me] || !Compatible(versions[from], versions[me]) then s
    else if me > from then
      s.(net := s.net + multiset{Callback(me, from)},
         connections := s.connections + multiset{Temporary(me, from)})
    else
      s.(known := s.known[me := s.known[me] + {from}],
         net := s.net + multiset{Connect(me, from)},
         connections := s.connections + multiset{Persistent(me, from)},
         clientName := s.clientName[Persistent(me, from) := from])
  }

  /** A callback is taken off and its connection closed. */
  function Closed(s: State, sender: Name, to: Name): State {
    s.(net := s.net - multiset{Callback(sender, to)},
       connections := s.connections - multiset{Temporary(sender, to)})
  }

  /** The client of a connection has told its name. */
  function Named(s: State, sender: Name, to: Name): State
    requires to in s.known
  {
    s.(net := s.net - multiset{Connect(sender, to)},
       known := s.known[to := s.known[to] + {sender}],
       serverName := s.serverName[Persistent(sender, to) := sender])
  }

  lemma ApplyNone(s: State, me: Name, via: Connection)
    ensures Apply(s, me, via, []) == s
  {
  }

  lemma ApplySingle(s: State, me: Name, via: Connection, output: Output)
    ensures Apply(s, me, via, [output]) == ApplyOne(s, me, via, output)
  {
    assert [output][1..] == [];
  }

  lemma ApplyPair(s: State, me: Name, via: Connection, a: Output, b: Output)
    ensures Apply(s, me, via, [a, b]) == ApplyOne(ApplyOne(s, me, via, a), me, via, b)
  {
    assert [a, b][1..] == [b];
    ApplySingle(ApplyOne(s, me, via, a), me, via, b);
  }

  lemma HearIs(s: State, versions: map<Name, Version>, a: Action)
    requires s.known.Keys == versions.Keys && CanStep(s, a) && a.Hear?
    ensures Step(s, versions, a) == Introduce(s, versions, a.hearer, a.about)
  {
    hide Apply, Compatible;
    var me, from, via := a.hearer, a.about, Temporary(a.about, a.hearer);
    var r := React(me, versions[me], s.known[me], from, versions[from], DyInfo, NoSource);
    var s' := s.(known := s.known[me := r.known]);
    assert r.known == s.known[me] ==> s' == s;
    ApplyNone(s', me, via);
    ApplySingle(s', me, via, SendCallback(from));
    ApplySingle(s', me, via, ConnectTo(from));
    assert [] + [SendCallback(from)] == [SendCallback(from)];
    assert [] + [ConnectTo(from)] == [ConnectTo(from)];
  }

  lemma ReceiveCallbackIs(s: State, versions: map<Name, Version>, sender: Name, to: Name)
    requires s.known.Keys == versions.Keys && CanStep(s, Receive(Callback(sender, to)))
    requires Compatible(versions[sender], versions[to])
    ensures Step(s, versions, Receive(Callback(sender, to))) == Introduce(Closed(s, sender, to), versions, to, sender)
  {
    hide Apply, Compatible;
    var me, from, via := to, sender, Temporary(sender, to);
    var s0 := s.(net := s.net - multiset{Callback(sender, to)});
    var r := React(me, versions[me], s.known[me], from, versions[from], DyCallback, ProcSource);
    var s' := s0.(known := s.known[me := r.known]);
    assert Step(s, versions, Receive(Callback(sender, to))) == Apply(s', me, via, r.outputs);
    hide Step, Handle;
    assert r.known == s.known[me] ==> s' == s0;
    if me == from || from in s.known[me] {
      ApplySingle(s', me, via, CloseSource);
    } else if me > from {
      ApplyPair(s', me, via, CloseSource, SendCallback(from));
      assert [CloseSource] + [SendCallback(from)] == [CloseSource, SendCallback(from)];
    } else {
      ApplyPair(s', me, via, CloseSource, ConnectTo(from));
      assert [CloseSource] + [ConnectTo(from)] == [CloseSource, ConnectTo(from)];
    }
  }

  lemma ReceiveConnectIs(s: State, versions: map<Name, Version>, sender: Name, to: Name)
    requires s.known.Keys == versions.Keys && CanStep(s, Receive(Connect(sender, to)))
    requires Compatible(versions[sender], versions[to])
    ensures Step(s, versions, Receive(Connect(sender, to))) == Named(s, sender, to)
  {
    hide Apply, Compatible;
    var via := Persistent(sender, to);
    var s' := s.(net := s.net - multiset{Connect(sender, to)}, known := s.known[to := s.known[to] + {sender}]);
    ApplySingle(s', to, via, SourceIs(sender));
    assert [] + [SourceIs(sender)] == [SourceIs(sender)];
  }

  lemma IntroduceKeepsInv(s: State, versions: map<Name, Version>, me: Name, from: Name)
    requires Inv(s, versions) && me in versions && from in versions
    ensures Inv(Introduce(s, versions, me, from), versions)
  {
    hide PairOk, Compatible;
    var s' := Introduce(s, versions, me, from);
    IntroduceKeepsNames(s, versions, me, from);
    hide Introduce;
    forall lo, hi | lo in versions && hi in versions && lo < hi ensures PairOk(s', versions, lo, hi) {
      IntroduceKeepsPair(s, versions, me, from, lo, hi);
    }
  }

  /** All that has to do with names only. */
  lemma IntroduceKeepsNames(s: State, versions: map<Name, Version>, me: Name, from: Name)
    requires Inv(s, versions) && me in versions && from in versions
    ensures var s' := Introduce(s, versions, me, from);
            && s'.known.Keys == versions.Keys
            && (forall n, k :: n in versions && k in s'.known[n] ==> k in versions && k != n)
            && (forall m :: m in s'.net ==> m.sender in versions && m.to in versions && m.sender != m.to)
            && (forall c :: c in s'.connections ==> c.opener in versions && c.to in versions && c.opener != c.to)
  {
    hide PairOk, Compatible;
  }

  lemma IntroduceKeepsPair(s: State, versions: map<Name, Version>, me: Name, from: Name, lo: Name, hi: Name)
    requires s.known.Keys == versions.Keys && me in versions && from in versions
    requires lo in versions && hi in versions && lo < hi && PairOk(s, versions, lo, hi)
    ensures PairOk(Introduce(s, versions, me, from), versions, lo, hi)
  {
    hide Compatible;
    CompatibleBothWays(versions[me], versions[from]);
  }

  lemma CompatibleBothWays(v: Version, w: Version)
    ensures Compatible(v, w) == Compatible(w, v)
  {
  }

  lemma ClosedKeepsPair(s: State, versions: map<Name, Version>, sender: Name, to: Name, lo: Name, hi: Name)
    requires s.known.Keys == versions.Keys && lo in versions && hi in versions && lo < hi && PairOk(s, versions, lo, hi)
    requires Callback(sender, to) in s.net && to < sender && s.connections[Temporary(sender, to)] > 0
    ensures PairOk(Closed(s, sender, to), versions, lo, hi)
  {
    hide Compatible;
  }

  lemma ClosedKeepsInv(s: State, versions: map<Name, Version>, sender: Name, to: Name)
    requires Inv(s, versions) && Callback(sender, to) in s.net
    ensures to < sender && Compatible(versions[sender], versions[to])
    ensures Inv(Closed(s, sender, to), versions)
  {
    hide Compatible;
    var m := Callback(sender, to);
    assert m.sender in versions && m.to in versions && m.sender != m.to;
    var lo, hi := if sender < to then sender else to, if sender < to then to else sender;
    assert PairOk(s, versions, lo, hi);
    CompatibleBothWays(versions[lo], versions[hi]);
    hide PairOk;
    var s' := Closed(s, sender, to);
    forall lo, hi | lo in versions && hi in versions && lo < hi ensures PairOk(s', versions, lo, hi) {
      ClosedKeepsPair(s, versions, sender, to, lo, hi);
    }
  }

  lemma NamedKeepsPair(s: State, versions: map<Name, Version>, sender: Name, to: Name, lo: Name, hi: Name)
    requires s.known.Keys == versions.Keys && lo in versions && hi in versions && lo < hi && PairOk(s, versions, lo, hi)
    requires Connect(sender, to) in s.net && sender < to && to in versions
    ensures PairOk(Named(s, sender, to), versions, lo, hi)
  {
    hide Compatible;
  }

  lemma NamedKeepsInv(s: State, versions: map<Name, Version>, sender: Name, to: Name)
    requires Inv(s, versions) && Connect(sender, to) in s.net
    ensures to in s.known && sender < to && Compatible(versions[sender], versions[to])
    ensures Inv(Named(s, sender, to), versions)
  {
    ConnectIsFromBelow(s, versions, sender, to);
    hide PairOk, Compatible;
    var s' := Named(s, sender, to);
    forall lo, hi | lo in versions && hi in versions && lo < hi ensures PairOk(s', versions, lo, hi) {
      NamedKeepsPair(s, versions, sender, to, lo, hi);
    }
  }

  lemma ConnectIsFromBelow(s: State, versions: map<Name, Version>, sender: Name, to: Name)
    requires Inv(s, versions) && Connect(sender, to) in s.net
    ensures sender in versions && to in versions && sender < to && Compatible(versions[sender], versions[to])
  {
    hide Compatible;
    var m := Connect(sender, to);
    assert m.sender in versions && m.to in versions && m.sender != m.to;
    var lo, hi := if sender < to then sender else to, if sender < to then to else sender;
    assert PairOk(s, versions, lo, hi);
  }

  lemma StepKeepsInv(s: State, versions: map<Name, Version>, a: Action)
    requires Inv(s, versions) && CanStep(s, a)
    ensures Inv(Step(s, versions, a), versions)
  {
    hide Step, Inv, Introduce, Named, Closed, Compatible;
    InvHasKeys(s, versions);
    match a
    case Hear(hearer, about) =>
      HearIs(s, versions, a);
      IntroduceKeepsInv(s, versions, hearer, about);
    case Receive(m) =>
      if m.Callback? {
        ClosedKeepsInv(s, versions, m.sender, m.to);
        ReceiveCallbackIs(s, versions, m.sender, m.to);
        IntroduceKeepsInv(Closed(s, m.sender, m.to), versions, m.to, m.sender);
      } else {
        NamedKeepsInv(s, versions, m.sender, m.to);
        ReceiveConnectIs(s, versions, m.sender, m.to);
      }
  }

  lemma InvHasKeys(s: State, versions: map<Name, Version>)
    requires Inv(s, versions)
    ensures s.known.Keys == versions.Keys
  {
  }

  // ---------------------------------------------------------------------
  // Runs
  // ---------------------------------------------------------------------

  /** From nobody knowing anybody on. */
  ghost predicate IsRun(run: seq<State>, actions: seq<Action>, versions: map<Name, Version>) {
    && |run| == |actions| + 1
    && run[0] == Start(versions)
    && forall i :: 0 <= i < |actions| ==>
         && run[i].known.Keys == versions.Keys && CanStep(run[i], actions[i])
         && run[i + 1] == Step(run[i], versions, actions[i])
  }

  lemma {:induction false} RunKeepsInv(run: seq<State>, actions: seq<Action>, versions: map<Name, Version>, k: nat)
    requires IsRun(run, actions, versions) && k < |run|
    ensures Inv(run[k], versions)
  {
    hide Inv, Step;
    if k == 0 {
      StartIsOk(versions);
    } else {
      RunKeepsInv(run, actions, versions, k - 1);
      StepKeepsInv(run[k - 1], versions, actions[k - 1]);
    }
  }

  /** In every state of every run: two processes never have more than one
      lasting connection, it is opened by the one with the lower name, and only
      if the versions agree. */
  lemma AtMostOneConnection(run: seq<State>, actions: seq<Action>, versions: map<Name, Version>, k: nat, a: Name,
                            b: Name)
    requires IsRun(run, actions, versions) && k < |run|
    requires a in versions && b in versions
    ensures run[k].connections[Persistent(a, b)] + run[k].connections[Persistent(b, a)] <= 1
    ensures run[k].connections[Persistent(a, b)] > 0 ==> a < b && Compatible(versions[a], versions[b])
  {
    hide Step, Compatible;
    RunKeepsInv(run, actions, versions, k);
    if a < b {
      assert PairOk(run[k], versions, a, b);
    } else if b < a {
      assert PairOk(run[k], versions, b, a);
    } else {
      assert Persistent(a, b) in run[k].connections ==> Persistent(a, b).opener != Persistent(a, b).to;
    }
  }

  /** The lower process knows the higher, or has been asked to call. */
  ghost predicate Committed(s: State, lo: Name, hi: Name)
    requires lo in s.known
  {
    hi in s.known[lo] || s.net[Callback(hi, lo)] > 0
  }

  /** One discovery message heard by either of two compatible processes is
      enough. */
  lemma HearingCommits(s: State, versions: map<Name, Version>, a: Action)
    requires Inv(s, versions) && a.Hear? && CanStep(s, a) && a.hearer != a.about
    requires Compatible(versions[a.about], versions[a.hearer])
    ensures var (lo, hi) := if a.hearer < a.about then (a.hearer, a.about) else (a.about, a.hearer);
            lo in Step(s, versions, a).known && Committed(Step(s, versions, a), lo, hi)
  {
    hide Step, Compatible;
    HearIs(s, versions, a);
    var lo, hi := if a.hearer < a.about then a.hearer else a.about, if a.hearer < a.about then a.about else a.hearer;
    assert PairOk(s, versions, lo, hi);
  }

  lemma IntroduceKeepsCommitted(s: State, versions: map<Name, Version>, me: Name, from: Name, lo: Name, hi: Name)
    requires s.known.Keys == versions.Keys && me in versions && from in versions && lo in versions
    requires Committed(s, lo, hi)
    ensures Committed(Introduce(s, versions, me, from), lo, hi)
  {
    hide Compatible;
  }

  /** Taking off the last callback is no loss, for the client then calls. */
  lemma CallbackKeepsCommitted(s: State, versions: map<Name, Version>, sender: Name, to: Name, lo: Name, hi: Name)
    requires s.known.Keys == versions.Keys && lo in versions && sender in versions && to in versions && to < sender
    requires Compatible(versions[sender], versions[to])
    requires Committed(s, lo, hi)
    ensures Committed(Introduce(Closed(s, sender, to), versions, to, sender), lo, hi)
  {
    hide Compatible;
  }

  lemma StepKeepsCommitted(s: State, versions: map<Name, Version>, a: Action, lo: Name, hi: Name)
    requires Inv(s, versions) && CanStep(s, a) && lo in versions && hi in versions && lo < hi
    requires Committed(s, lo, hi)
    ensures lo in Step(s, versions, a).known && Committed(Step(s, versions, a), lo, hi)
  {
    hide Step, Compatible, Inv, Introduce, Closed;
    InvHasKeys(s, versions);
    StepKeepsInv(s, versions, a);
    InvHasKeys(Step(s, versions, a), versions);
    match a
    case Hear(hearer, about) =>
      HearIs(s, versions, a);
      IntroduceKeepsCommitted(s, versions, hearer, about, lo, hi);
    case Receive(m) =>
      if m.Callback? {
        ClosedKeepsInv(s, versions, m.sender, m.to);
        ReceiveCallbackIs(s, versions, m.sender, m.to);
        CallbackKeepsCommitted(s, versions, m.sender, m.to, lo, hi);
      } else {
        NamedKeepsInv(s, versions, m.sender, m.to);
        ReceiveConnectIs(s, versions, m.sender, m.to);
      }
  }

  lemma {:induction false} RunKeepsCommitted(run: seq<State>, actions: seq<Action>, versions: map<Name, Version>,
                                             i: nat, j: nat, lo: Name, hi: Name)
    requires IsRun(run, actions, versions) && i <= j < |run|
    requires lo in versions && hi in versions && lo < hi
    requires lo in run[i].known && Committed(run[i], lo, hi)
    ensures lo in run[j].known && Committed(run[j], lo, hi)
    decreases j - i
  {
    hide Step, Inv, CanStep, Committed;
    if i < j {
      RunKeepsInv(run, actions, versions, i);
      StepKeepsCommitted(run[i], versions, actions[i], lo, hi);
      RunKeepsCommitted(run, actions, versions, i + 1, j, lo, hi);
    }
  }

  /** Whatever else happens: once one discovery message between two compatible
      processes was heard, by either, whenever all TCP messages have been dealt
      with the two know each other, are connected, no temporary connection between
      them is left, and each has given the connection the name of the other. */
  lemma OneHearingIsEnough(run: seq<State>, actions: seq<Action>, versions: map<Name, Version>, i: nat, j: nat)
    requires IsRun(run, actions, versions) && i < |actions| && i < j < |run|
    requires actions[i].Hear? && actions[i].hearer != actions[i].about
    requires Compatible(versions[actions[i].about], versions[actions[i].hearer])
    requires run[j].net == multiset{}
    ensures var a, b, s := actions[i].hearer, actions[i].about, run[j];
            && a in s.known && b in s.known && b in s.known[a] && a in s.known[b]
            && s.connections[Persistent(a, b)] + s.connections[Persistent(b, a)] == 1
            && s.connections[Temporary(a, b)] == s.connections[Temporary(b, a)] == 0
            && var lasting := if a < b then Persistent(a, b) else Persistent(b, a);
               && s.connections[lasting] == 1
               && lasting in s.clientName && s.clientName[lasting] == lasting.to
               && lasting in s.serverName && s.serverName[lasting] == lasting.opener
  {
    hide Step, Compatible;
    var a, b := actions[i].hearer, actions[i].about;
    var lo, hi := if a < b then a else b, if a < b then b else a;
    RunKeepsInv(run, actions, versions, i);
    HearingCommits(run[i], versions, actions[i]);
    RunKeepsCommitted(run, actions, versions, i + 1, j, lo, hi);
    RunKeepsInv(run, actions, versions, j);
    assert PairOk(run[j], versions, lo, hi);
  }

  // ---------------------------------------------------------------------
  // Quiet
  // ---------------------------------------------------------------------

  function Cost(m: Message): nat {
    if m.Callback? then 2 else 1
  }

  /** How many deliveries the messages on their way can lead to. */
  ghost function Weight(net: multiset<Message>): nat
    decreases |net|
  {
    if net == multiset{} then 0
    else
      var m :| m in net;
      Cost(m) + Weight(net - multiset{m})
  }

  lemma {:induction false} WeightWithout(net: multiset<Message>, m: Message)
    requires m in net
    ensures Weight(net) == Cost(m) + Weight(net - multiset{m})
    decreases |net|
  {
    var m0 :| m0 in net && Weight(net) == Cost(m0) + Weight(net - multiset{m0});
    if m0 != m {
      WeightWithout(net - multiset{m0}, m);
      WeightWithout(net - multiset{m}, m0);
      assert net - multiset{m0} - multiset{m} == net - multiset{m} - multiset{m0};
    }
  }

  lemma WeightWith(net: multiset<Message>, m: Message)
    ensures Weight(net + multiset{m}) == Weight(net) + Cost(m)
  {
    WeightWithout(net + multiset{m}, m);
    assert net + multiset{m} - multiset{m} == net;
  }

  lemma {:induction false} WeightBound(net: multiset<Message>)
    ensures Weight(net) <= 2 * |net|
    decreases |net|
  {
    if net != multiset{} {
      var m :| m in net;
      WeightWithout(net, m);
      WeightBound(net - multiset{m});
    }
  }

  lemma ReceiveLightens(s: State, versions: map<Name, Version>, m: Message)
    requires Inv(s, versions) && CanStep(s, Receive(m))
    ensures s.known.Keys == versions.Keys && Weight(Step(s, versions, Receive(m)).net) < Weight(s.net)
  {
    hide Step, Compatible, Inv, Weight;
    InvHasKeys(s, versions);
    WeightWithout(s.net, m);
    if m.Callback? {
      ClosedKeepsInv(s, versions, m.sender, m.to);
      ReceiveCallbackIs(s, versions, m.sender, m.to);
      WeightWith(s.net - multiset{m}, Connect(m.to, m.sender));
    } else {
      NamedKeepsInv(s, versions, m.sender, m.to);
      ReceiveConnectIs(s, versions, m.sender, m.to);
    }
  }

  /** While there are TCP messages one of them can be delivered, and without
      new discovery messages at most two deliveries for each message on its way
      can follow each other. */
  lemma {:induction false} QuietSoon(run: seq<State>, actions: seq<Action>, versions: map<Name, Version>, i: nat,
                                     j: nat)
    requires IsRun(run, actions, versions) && i <= j < |run|
    requires forall k :: i <= k < j ==> actions[k].Receive?
    ensures j - i + Weight(run[j].net) <= Weight(run[i].net) <= 2 * |run[i].net|
    ensures forall m :: m in run[j].net ==> CanStep(run[j], Receive(m))
    decreases j - i
  {
    hide Step, Weight;
    RunKeepsInv(run, actions, versions, i);
    WeightBound(run[i].net);
    if i < j {
      ReceiveLightens(run[i], versions, actions[i].m);
      QuietSoon(run, actions, versions, i + 1, j);
    }
  }
}
