/** A message is built with the functions for sending and taken apart with those
    for receiving, src/message.cpp: the arguments come out as they went in. */
module MessageRoundTrip {
  import opened Common
  import opened Bytes
  import opened MessageFormat
  import opened MessageBuilder
  import opened MessageReader

  /** The function of the `o2_add_` family for the type of the argument. */
  method Add(builder: Builder, a: Arg) returns (ok: bool)
    requires builder.Valid() && ArgOk(a)
    modifies builder
    ensures builder.Valid() && builder.buildingLock == old(builder.buildingLock)
    ensures ok == !old(builder.isBundle) && builder.isBundle == old(builder.isBundle)
    ensures builder.args == if ok then old(builder.args) + [a] else old(builder.args)
  {
    match a {
      case Word(k, bits) => ok := builder.AddInt32OrChar(k, bits);
      case Long(k, bits) => ok := builder.AddInt64OrDoubleOrTime(k, bits);
      case Text(k, s) => ok := builder.AddStringOrSymbol(k, s);
      case Blob(data) => ok := builder.AddBlobData(data);
      case Flag(k) => ok := builder.AddOnlyTypecode(k);
    }
  }

  /** Any arguments, sent to any address, are received as they were sent. */
  method SendAndReceive(args: seq<Arg>, time: nat, service: Option<seq<Byte>>, address: seq<Byte>, tcp: bool)
    returns (received: seq<Arg>, ok: bool)
    requires ArgsOk(args) && time < Limit(8) && NoZero(FullAddress(service, address, SLASH))
    ensures ok && received == args
  {
    hide Limit, Encode, DataOf, Data, PadText, TypeBlock;
    var builder := new Builder();
    ok := builder.Start();
    var i := 0;
    while i < |args|
      invariant 0 <= i <= |args| && ok
      invariant builder.Valid() && builder.buildingLock && !builder.isBundle && builder.args == args[..i]
      invariant fresh(builder)
    {
      ok := Add(builder, args[i]);
      i := i + 1;
    }
    assert args[..i] == args;
    var msg := builder.Finish(time, service, address, tcp);
    ghost var misc, addr := if tcp then TCP_FLAG else 0, FullAddress(service, address, SLASH);
    PartsOf(misc, time, addr, args, Host);
    var extractor := new Extractor(msg[..], misc, time, addr, args);
    received, ok := extractor.GetAll(Codes(args), misc, time, addr, args);
  }
}
