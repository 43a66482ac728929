/**
  The RPC client routines, updating the packet table and the client headers in place.
 */
module SifRpcDriver {
  import opened SifRpcState

  class Driver {
    var pid: nat
    const pkts: array<Packet>
    var clients: map<nat, Client>

    ghost function View(): Rpc
      reads this, pkts
    {
      Rpc(pid, pkts[..], clients)
    }

    constructor (packets: nat, clients: map<nat, Client>)
      requires forall c :: c in clients ==> clients[c].pkt == None
      ensures Initial(View()) && pkts.Length == packets && this.clients == clients
      ensures fresh(pkts)
    {
      pid := 1;
      pkts := new Packet[packets](_ => Packet(false, 0));
      this.clients := clients;
    }

    /** _rpc_get_packet */
    method RpcGetPacket() returns (slot: Option<nat>)
      modifies this`pid, pkts
      ensures (View(), slot) == GetPacket(old(View()))
    {
      var rid := 0;
      while rid < pkts.Length
        invariant 0 <= rid <= pkts.Length
        invariant FreeSlot(pkts[..], 0) == FreeSlot(pkts[..], rid)
      {
        if !pkts[rid].alloc {
          break;
        }
        rid := rid + 1;
      }
      if rid == pkts.Length {
        return None;
      }
      var id := pid;
      if id != 0 {
        id := (id + 1) % U32;
        pid := id;
      } else {
        pid := id + 2;
        id := 1;
      }
      pkts[rid] := Packet(true, id);
      return Some(rid);
    }

    /** rpc_packet_free */
    method RpcPacketFree(s: nat)
      requires s < pkts.Length
      modifies pkts
      ensures View() == FreePacket(old(View()), s)
    {
      pkts[s] := Packet(false, 0);
    }

    /** The interrupt-free section of SifBindRpc and SifCallRpc that takes the client. */
    method ClaimClient(c: nat, s: nat, end: Option<End>, bind: bool) returns (ok: bool)
      requires c in clients && s < pkts.Length
      modifies this`clients
      ensures (View(), ok) == Claim(old(View()), c, s, end, bind)
    {
      var cd := clients[c];
      if cd.pkt != None {
        return false;
      }
      cd := cd.(end := end);
      if bind {
        cd := cd.(server := 0);
      }
      cd := cd.(pkt := Some(s), rpcId := pkts[s].rpcId, sema := 0);
      clients := clients[c := cd];
      return true;
    }

    /** Some packet is free and the client has no request: otherwise a request is refused. */
    ghost predicate Takes(c: nat)
      requires c in clients
      reads this, pkts
    {
      clients[c].pkt == None && exists s :: 0 <= s < pkts.Length && !pkts[s].alloc
    }

    /** SifBindRpc, or SifCallRpc with a receive buffer that is aligned or not, without waiting;
        `sent` is the answer of SifSendCmd. */
    method Request(c: nat, end: Option<End>, bind: bool, aligned: bool, sent: bool) returns (code: int)
      requires c in clients
      modifies this`pid, this`clients, pkts
      ensures c in clients
      ensures (View(), code) == Requested(old(View()), c, end, bind, aligned, sent)
      // the result, from the arguments and the state before
      ensures code == -0xd606 <==> !bind && !aligned
      ensures code == -0xd610 <==> (bind || aligned) && !old(Takes(c))
      ensures code == -0xd611 <==> (bind || aligned) && old(Takes(c)) && !sent
      ensures code == 0 <==> (bind || aligned) && old(Takes(c)) && sent
      // a refused request leaves the table and every client as they were, but for the id counter
      ensures code == -E_SIF_PKT_ALLOC || code == -E_LIB_INVALID_ARG ==>
                clients == old(clients) && forall s :: 0 <= s < pkts.Length ==> pkts[s].alloc == old(pkts[s].alloc)
      // a failed send frees the packet but not the client
      ensures code == -E_SIF_PKT_SEND ==>
                clients[c].pkt.Some? && !CheckStat(View(), c)
                && forall s :: 0 <= s < pkts.Length ==> pkts[s].alloc == old(pkts[s].alloc)
      ensures code == 0 ==> CheckStat(View(), c) && clients[c].end == end
                            && clients[c].pkt.value < pkts.Length && !old(pkts[..])[clients[c].pkt.value].alloc
      ensures forall d :: d in old(clients) && d != c ==> d in clients && clients[d] == old(clients[d])
    {
      if !bind && !aligned {
        return -E_LIB_INVALID_ARG;
      }
      var slot := RpcGetPacket();
      if slot == None {
        return -E_SIF_PKT_ALLOC;
      }
      assert !old(pkts[..])[slot.value].alloc;
      var ok := ClaimClient(c, slot.value, end, bind);
      if !ok {
        RpcPacketFree(slot.value);
        return -E_SIF_PKT_ALLOC;
      }
      if !sent {
        RpcPacketFree(slot.value);
        return -E_SIF_PKT_SEND;
      }
      return 0;
    }

    /** The locked part of _request_end. */
    method RequestEnd(c: nat, cmd: Command) returns (pkt: Option<nat>, end: Option<End>)
      requires c in clients
      modifies this`clients
      ensures (View(), pkt, end) == EndRequest(old(View()), c, cmd)
    {
      var cd := clients[c];
      pkt := cd.pkt;
      cd := cd.(sema := cd.sema + 1);
      end := cd.end;
      if cmd.BindReply? {
        cd := cd.(server := cmd.server);
      }
      clients := clients[c := cd.(pkt := None)];
    }

    /** SifCheckStatRpc */
    method SifCheckStatRpc(c: nat) returns (r: int)
      requires c in clients && (clients[c].pkt.Some? ==> clients[c].pkt.value < pkts.Length)
      ensures r == if CheckStat(View(), c) then 1 else 0
    {
      var pkt := clients[c].pkt;
      if pkt == None {
        return 0;
      }
      var packet := pkts[pkt.value];
      if clients[c].rpcId != packet.rpcId {
        return 0;
      }
      if !packet.alloc {
        return 0;
      }
      return 1;
    }
  }
}
