/**
 * The registry daemon of daemon.py: a set of device endpoints, and the
 * handling of one request per accepted connection. The socket plumbing is
 * not modelled: a request is the text already received, and the JSON
 * decoding of a payload is a parameter.
 */
module RegistryDaemon {
  import opened Wrappers
  import opened Utils

  /** What `set(loads(payload))` gives: the decoded elements, or a decoding failure. */
  datatype Decoded = Parsed(items: seq<string>) | ParseError

  /**
   * The end of one request: the new device set and the reply sent (the
   * encoded set for `list`), or `Crashed` when decoding raised out of the
   * loop.
   */
  datatype Outcome = Served(devices: set<string>, reply: Option<set<string>>) | Crashed

  /** One pass through the body of the `while True` loop of `run`. */
  function Handle(devices: set<string>, payload: string, decode: string -> Decoded): (o: Outcome)
    ensures o.Served? ==> (o.reply.Some? <==> payload == "list")
    ensures o.Crashed? <==> payload != "list" && '[' in payload && decode(payload).ParseError?
  {
    if payload == "list" then Served(devices, Some(devices))
    else if '[' in payload then
      match decode(payload)
      case ParseError => Crashed
      case Parsed(items) => Served(devices + SetOf(items), None)
    else Served(devices, None)
  }

  /** The request `list` is answered with every device, and the set is left as it is. */
  lemma ListReplies(devices: set<string>, decode: string -> Decoded)
    ensures Handle(devices, "list", decode) == Served(devices, Some(devices))
  {
  }

  /** A payload with `[` other than `list` adds every decoded element and gets no reply. */
  lemma MergeAddsAll(devices: set<string>, payload: string, decode: string -> Decoded)
    requires payload != "list" && '[' in payload && decode(payload).Parsed?
    ensures Handle(devices, payload, decode).Served?
    ensures Handle(devices, payload, decode).reply == None
    ensures forall d :: d in Handle(devices, payload, decode).devices <==>
      d in devices || d in decode(payload).items
  {
  }

  /** Any other payload, `stop` among them, changes nothing and gets no reply. */
  lemma OthersIgnored(devices: set<string>, payload: string, decode: string -> Decoded)
    requires payload != "list" && '[' !in payload
    ensures Handle(devices, payload, decode) == Served(devices, None)
    ensures Handle(devices, "stop", decode) == Served(devices, None)
  {
    assert "stop" != "list";
    assert '[' !in "stop";
  }

  /** No request removes a device. */
  lemma HandleGrows(devices: set<string>, payload: string, decode: string -> Decoded)
    ensures Handle(devices, payload, decode).Served? ==> devices <= Handle(devices, payload, decode).devices
  {
  }

  /** Sending the same merge payload twice leaves the set as sending it once. */
  lemma MergeIdempotent(devices: set<string>, payload: string, decode: string -> Decoded)
    requires Handle(devices, payload, decode).Served?
    ensures Handle(Handle(devices, payload, decode).devices, payload, decode).devices
            == Handle(devices, payload, decode).devices
  {
  }

  /** A `list` request after a merge names every merged element. */
  lemma ListAfterMerge(devices: set<string>, payload: string, decode: string -> Decoded)
    requires payload != "list" && '[' in payload && decode(payload).Parsed?
    ensures var merged := Handle(devices, payload, decode).devices;
      Handle(merged, "list", decode).reply.Some?
      && forall i :: 0 <= i < |decode(payload).items| ==>
           decode(payload).items[i] in Handle(merged, "list", decode).reply.value
  {
  }

  /** The result of serving a sequence of requests: the final set, the replies sent, and whether a decode crashed the loop. */
  datatype Run = Run(devices: set<string>, replies: seq<set<string>>, crashed: bool)

  /** The loop of `run` over the given requests, ending at the first crash. */
  function ServeAll(devices: set<string>, payloads: seq<string>, decode: string -> Decoded): (r: Run)
    ensures |r.replies| <= |payloads|
    ensures r.crashed ==> payloads != []
    decreases |payloads|
  {
    if payloads == [] then Run(devices, [], false)
    else match Handle(devices, payloads[0], decode)
      case Crashed => Run(devices, [], true)
      case Served(next, reply) =>
        var rest := ServeAll(next, payloads[1..], decode);
        Run(rest.devices, (if reply.Some? then [reply.value] else []) + rest.replies, rest.crashed)
  }

  /**
   * Over any sequence of requests the set only grows, and every reply lists
   * at least the devices known before the first request.
   */
  lemma {:induction false} ServeAllGrows(devices: set<string>, payloads: seq<string>, decode: string -> Decoded)
    ensures devices <= ServeAll(devices, payloads, decode).devices
    ensures forall i :: 0 <= i < |ServeAll(devices, payloads, decode).replies| ==>
      devices <= ServeAll(devices, payloads, decode).replies[i]
    ensures |ServeAll(devices, payloads, decode).replies| <= |payloads|
    decreases |payloads|
  {
    if payloads != [] {
      match Handle(devices, payloads[0], decode)
      case Crashed =>
      case Served(next, reply) =>
        HandleGrows(devices, payloads[0], decode);
        ServeAllGrows(next, payloads[1..], decode);
    }
  }

  /** Without a `list` request no reply is ever sent. */
  lemma {:induction false} RepliesOnlyToList(devices: set<string>, payloads: seq<string>, decode: string -> Decoded)
    requires forall i :: 0 <= i < |payloads| ==> payloads[i] != "list"
    ensures ServeAll(devices, payloads, decode).replies == []
    decreases |payloads|
  {
    if payloads != [] {
      match Handle(devices, payloads[0], decode)
      case Crashed =>
      case Served(next, reply) =>
        RepliesOnlyToList(next, payloads[1..], decode);
    }
  }

  /** The daemon object of daemon.py, without its listening socket. */
  class Daemon {
    var devices: set<string>

    /** `__init__` up to the call of `run`: the set starts empty. */
    constructor ()
      ensures devices == {}
    {
      devices := {};
    }

    /** `get_devices`: the current set; nothing changes. */
    method GetDevices() returns (ds: set<string>)
      ensures ds == devices
    {
      ds := devices;
    }

    /** `add_devices`: every element of `ds` is added, one at a time. */
    method AddDevices(ds: seq<string>)
      modifies this
      ensures devices == old(devices) + SetOf(ds)
    {
      for k := 0 to |ds|
        invariant devices == old(devices) + SetOf(ds[..k])
      {
        assert SetOf(ds[..k + 1]) == SetOf(ds[..k]) + {ds[k]};
        devices := devices + {ds[k]};
      }
      assert ds[..|ds|] == ds;
    }

    /** One request: the reply sent, or `crashed` when decoding raised. */
    method HandleRequest(payload: string, decode: string -> Decoded) returns (reply: Option<set<string>>, crashed: bool)
      modifies this
      ensures crashed <==> Handle(old(devices), payload, decode).Crashed?
      ensures crashed ==> devices == old(devices) && reply == None
      ensures !crashed ==> Handle(old(devices), payload, decode) == Served(devices, reply)
    {
      reply, crashed := None, false;
      if payload == "list" {
        reply := Some(devices);
      } else if '[' in payload {
        var decoded := decode(payload);
        if decoded.ParseError? {
          crashed := true;
          return;
        }
        var temp := SetOf(decoded.items);
        var pending := temp;
        while pending != {}
          invariant pending <= temp
          invariant devices == old(devices) + (temp - pending)
          decreases |pending|
        {
          var i :| i in pending;
          devices := devices + {i};
          pending := pending - {i};
        }
      }
    }

    /** The `run` loop over the given requests, until the first crash. */
    method Serve(payloads: seq<string>, decode: string -> Decoded) returns (replies: seq<set<string>>, crashed: bool)
      modifies this
      ensures ServeAll(old(devices), payloads, decode) == Run(devices, replies, crashed)
      ensures old(devices) <= devices
    {
      ServeAllGrows(devices, payloads, decode);
      replies, crashed := [], false;
      var k := 0;
      while k < |payloads|
        invariant 0 <= k <= |payloads|
        invariant ServeAll(old(devices), payloads, decode)
                  == (var rest := ServeAll(devices, payloads[k..], decode);
                      Run(rest.devices, replies + rest.replies, rest.crashed))
      {
        ghost var before := devices;
        assert payloads[k..][1..] == payloads[k + 1..];
        var reply, failed := HandleRequest(payloads[k], decode);
        if failed {
          crashed := true;
          assert replies + [] == replies;
          return;
        }
        var rest := ServeAll(devices, payloads[k + 1..], decode);
        assert ServeAll(before, payloads[k..], decode).replies
               == (if reply.Some? then [reply.value] else []) + rest.replies;
        if reply.Some? {
          assert replies + ([reply.value] + rest.replies) == replies + [reply.value] + rest.replies;
          replies := replies + [reply.value];
        } else {
          assert [] + rest.replies == rest.replies;
        }
        k := k + 1;
      }
      assert replies + [] == replies;
    }
  }
}
