/**
  The RPC client layer: a table of packets shared by all clients, and one header per client
  that says which packet its current request uses.  Each function below is one section that
  the source runs with interrupts off; everything else may happen between two of them.
 */
module SifRpcState {

  const U32: nat := 0x1_0000_0000

  datatype Option<T> = None | Some(value: T)

  /** An end function, by number, with its argument. */
  datatype End = End(func: nat, arg: int)

  /** rec_id's allocation bit and rpc_id of one entry of pkt_table. */
  datatype Packet = Packet(alloc: bool, rpcId: nat)

  /** The parts of SifRpcClientData_t the layer uses; `server` 0 is NULL. */
  datatype Client = Client(pkt: Option<nat>, rpcId: nat, sema: int, end: Option<End>, server: nat)

  datatype Rpc = Rpc(pid: nat, pkts: seq<Packet>, clients: map<nat, Client>)

  /** The lowest entry that is not allocated, or the length of the table. */
  function FreeSlot(pkts: seq<Packet>, from: nat): (s: nat)
    requires from <= |pkts|
    ensures from <= s <= |pkts|
    ensures forall k :: from <= k < s ==> pkts[k].alloc
    ensures s < |pkts| ==> !pkts[s].alloc
    decreases |pkts| - from
  {
    if from == |pkts| || !pkts[from].alloc then from else FreeSlot(pkts, from + 1)
  }

  /** The id for the next packet and the new counter; 0 is skipped as a start value. */
  function NextId(pid: nat): (nat, nat) {
    if pid != 0 then ((pid + 1) % U32, (pid + 1) % U32) else (1, 2)
  }

  /** _rpc_get_packet */
  function GetPacket(r: Rpc): (Rpc, Option<nat>) {
    var s := FreeSlot(r.pkts, 0);
    if s == |r.pkts| then (r, None)
    else
      var (id, pid) := NextId(r.pid);
      (r.(pid := pid, pkts := r.pkts[s := Packet(true, id)]), Some(s))
  }

  /** Take the client for the request in packet `s`, unless it has one already.
      A bind also forgets the server. */
  function Claim(r: Rpc, c: nat, s: nat, end: Option<End>, bind: bool): (Rpc, bool)
    requires c in r.clients && s < |r.pkts|
  {
    if r.clients[c].pkt != None then (r, false)
    else
      var cd := r.clients[c].(pkt := Some(s), rpcId := r.pkts[s].rpcId, sema := 0, end := end);
      (r.(clients := r.clients[c := if bind then cd.(server := 0) else cd]), true)
  }

  /** rpc_packet_free */
  function FreePacket(r: Rpc, s: nat): Rpc
    requires s < |r.pkts|
  {
    r.(pkts := r.pkts[s := Packet(false, 0)])
  }

  const E_SIF_PKT_ALLOC: int := 0xd610
  const E_SIF_PKT_SEND: int := 0xd611
  const E_LIB_INVALID_ARG: int := 0xd606

  /** SifBindRpc, or SifCallRpc with its alignment test, undisturbed from the first section to the
      last: the table and the clients it leaves, and its result. */
  function Requested(r: Rpc, c: nat, end: Option<End>, bind: bool, aligned: bool, sent: bool): (Rpc, int)
    requires c in r.clients
  {
    if !bind && !aligned then (r, -E_LIB_INVALID_ARG)
    else
      var (r1, slot) := GetPacket(r);
      if slot == None then (r1, -E_SIF_PKT_ALLOC)
      else
        var (r2, ok) := Claim(r1, c, slot.value, end, bind);
        if !ok then (FreePacket(r2, slot.value), -E_SIF_PKT_ALLOC)
        else if !sent then (FreePacket(r2, slot.value), -E_SIF_PKT_SEND)
        else (r2, 0)
  }

  datatype Command = CallReply | BindReply(server: nat)

  /** The locked part of _request_end: what it reads from the client, and the released client. */
  function EndRequest(r: Rpc, c: nat, cmd: Command): (Rpc, Option<nat>, Option<End>)
    requires c in r.clients
  {
    var cd := r.clients[c];
    var server := if cmd.BindReply? then cmd.server else cd.server;
    (r.(clients := r.clients[c := cd.(pkt := None, sema := cd.sema + 1, server := server)]), cd.pkt, cd.end)
  }

  /** SifCheckStatRpc */
  predicate CheckStat(r: Rpc, c: nat)
    requires c in r.clients
  {
    var cd := r.clients[c];
    && cd.pkt.Some? && cd.pkt.value < |r.pkts|
    && cd.rpcId == r.pkts[cd.pkt.value].rpcId
    && r.pkts[cd.pkt.value].alloc
  }

  predicate Initial(r: Rpc) {
    && r.pid == 1
    && (forall s :: 0 <= s < |r.pkts| ==> r.pkts[s] == Packet(false, 0))
    && (forall c :: c in r.clients ==> r.clients[c].pkt == None)
  }
}
