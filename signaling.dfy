/** The WebRTC signaling part of teleport_webrtc/api/tasks.py: the
    `ConnectionManager` registry of streamer and viewer sockets per task, and
    the receive loops of the two WebSocket endpoints. Sockets are known only
    by their identity; frames arrive already decoded; what the loops write to
    sockets is returned as a list of deliveries. */
module Signaling {
  import opened Common

  /** An accepted WebSocket, known only by its identity. */
  type Handle = nat

  /** A decoded signaling message: its `type` field when present, and the
      rest of the JSON object, carried along untouched. */
  datatype Frame = Frame(msgType: Option<string>, body: map<string, string>)

  /** One write to a socket: a JSON message (`send_text(json.dumps(..))`)
      or a raw text frame. */
  datatype Delivery = SendJson(to: Handle, message: Frame) | SendText(to: Handle, text: string)

  predicate IsOffer(f: Frame)
  {
    f.msgType == Some("offer")
  }

  /** The frames the streamer loop gets through: those before the first
      frame without a `type` field (reading `message['type']` there raises
      `KeyError`, which ends the handler). */
  function Handled(frames: seq<Frame>): (r: seq<Frame>)
    ensures |r| <= |frames| && r == frames[..|r|]
    ensures forall i :: 0 <= i < |r| ==> r[i].msgType.Some?
    ensures |r| < |frames| ==> frames[|r|].msgType.None?
  {
    if frames == [] || frames[0].msgType.None? then []
    else [frames[0]] + Handled(frames[1..])
  }

  /** The offers among the frames, in arrival order. */
  function Offers(frames: seq<Frame>): seq<Frame>
  {
    if frames == [] then []
    else (if IsOffer(frames[0]) then [frames[0]] else []) + Offers(frames[1..])
  }

  /** One more frame adds itself to the offers exactly when it is one. */
  lemma {:induction false} OffersAppend(frames: seq<Frame>, f: Frame)
    ensures Offers(frames + [f]) == Offers(frames) + (if IsOffer(f) then [f] else [])
  {
    if frames != [] {
      assert (frames + [f])[1..] == frames[1..] + [f];
      OffersAppend(frames[1..], f);
    } else {
      assert [f][1..] == [];
    }
  }

  /** The offers are exactly the offer frames of the input: nothing else is
      forwarded and no offer is lost. */
  lemma {:induction false} OffersExactly(frames: seq<Frame>)
    ensures forall f :: f in Offers(frames) <==> f in frames && IsOffer(f)
  {
    if frames != [] {
      OffersExactly(frames[1..]);
      assert frames == [frames[0]] + frames[1..];
    }
  }

  /** What forwarding the given offers does when the viewer registry holds
      `viewer` for the task: each offer, unchanged, to that viewer. */
  function Relay(viewer: Option<Handle>, offers: seq<Frame>): (r: seq<Delivery>)
  {
    match viewer
    case None => []
    case Some(v) => seq(|offers|, i requires 0 <= i < |offers| => SendJson(v, offers[i]))
  }

  /** The registry of connected peers, one streamer and one viewer per task. */
  class ConnectionManager {
    var streamers: map<int, Handle>
    var viewers: map<int, Handle>

    constructor ()
      ensures streamers == map[] && viewers == map[]
    {
      streamers := map[];
      viewers := map[];
    }

    /** The viewer currently registered for a task, if any. */
    function ViewerOf(taskId: int): Option<Handle>
      reads this
    {
      if taskId in viewers then Some(viewers[taskId]) else None
    }

    /** Registration replaces any earlier streamer of the task and leaves
        the viewers alone. */
    method ConnectStreamer(taskId: int, ws: Handle)
      modifies this
      ensures streamers == old(streamers)[taskId := ws] && viewers == old(viewers)
    {
      streamers := streamers[taskId := ws];
    }

    method ConnectViewer(taskId: int, ws: Handle)
      modifies this
      ensures viewers == old(viewers)[taskId := ws] && streamers == old(streamers)
    {
      viewers := viewers[taskId := ws];
    }

    /** Removal of that one key from the streamers; nothing when absent. */
    method DisconnectStreamer(taskId: int)
      modifies this
      ensures streamers == old(streamers) - {taskId} && viewers == old(viewers)
    {
      if taskId in streamers {
        streamers := streamers - {taskId};
      }
    }

    method DisconnectViewer(taskId: int)
      modifies this
      ensures viewers == old(viewers) - {taskId} && streamers == old(streamers)
    {
      if taskId in viewers {
        viewers := viewers - {taskId};
      }
    }

    /** `send_sdp`: the message, unchanged, to the registered viewer; with
        no viewer nothing is sent and nothing is kept for later. */
    function SendSdp(taskId: int, message: Frame): (sent: seq<Delivery>)
      reads this
      ensures |sent| <= 1
      ensures sent == [] <==> taskId !in viewers
      ensures forall d :: d in sent ==> d == SendJson(viewers[taskId], message)
    {
      if taskId in viewers then [SendJson(viewers[taskId], message)] else []
    }

    /** The body of the streamer loop over the frames received: every frame
        of type "offer" goes through `send_sdp`, others are ignored; a frame
        without a type ends the loop with an error. */
    method PumpStreamer(taskId: int, incoming: seq<Frame>) returns (sent: seq<Delivery>, crashed: bool)
      ensures crashed <==> exists i :: 0 <= i < |incoming| && incoming[i].msgType.None?
      ensures sent == Relay(ViewerOf(taskId), Offers(Handled(incoming)))
    {
      sent := [];
      crashed := false;
      var i := 0;
      while i < |incoming|
        invariant 0 <= i <= |incoming|
        invariant forall j :: 0 <= j < i ==> incoming[j].msgType.Some?
        invariant Handled(incoming)[..i] == incoming[..i] && i <= |Handled(incoming)|
        invariant sent == Relay(ViewerOf(taskId), Offers(incoming[..i]))
      {
        var message := incoming[i];
        if message.msgType.None? {
          crashed := true;
          assert |Handled(incoming)| == i;
          assert Handled(incoming) == incoming[..i];
          return;
        }
        assert incoming[..i + 1] == incoming[..i] + [message];
        OffersAppend(incoming[..i], message);
        if message.msgType.value == "offer" {
          sent := sent + SendSdp(taskId, message);
        }
        i := i + 1;
      }
      assert incoming[..i] == incoming;
    }
  }

  /** The receive loop of the viewer endpoint: every text frame goes back,
      unchanged, to the same viewer socket. */
  method EchoLoop(ws: Handle, incoming: seq<string>) returns (sent: seq<Delivery>)
    ensures |sent| == |incoming|
    ensures forall i :: 0 <= i < |incoming| ==> sent[i] == SendText(ws, incoming[i])
  {
    sent := [];
    var i := 0;
    while i < |incoming|
      invariant 0 <= i <= |incoming|
      invariant |sent| == i
      invariant forall j :: 0 <= j < i ==> sent[j] == SendText(ws, incoming[j])
    {
      var data := incoming[i];
      sent := sent + [SendText(ws, data)];
      i := i + 1;
    }
  }

  /** `streamer_websocket`: register, relay offers, and on disconnect
      unregister. A frame without a type ends the handler by an exception
      that is not `WebSocketDisconnect`, so the streamer stays registered. */
  method StreamerEndpoint(m: ConnectionManager, taskId: int, ws: Handle, incoming: seq<Frame>)
    returns (sent: seq<Delivery>, crashed: bool)
    modifies m
    ensures m.viewers == old(m.viewers)
    ensures sent == Relay(old(m.ViewerOf(taskId)), Offers(Handled(incoming)))
    ensures crashed <==> exists i :: 0 <= i < |incoming| && incoming[i].msgType.None?
    ensures crashed ==> m.streamers == old(m.streamers)[taskId := ws]
    ensures !crashed ==> m.streamers == old(m.streamers) - {taskId}
  {
    m.ConnectStreamer(taskId, ws);
    sent, crashed := m.PumpStreamer(taskId, incoming);
    if !crashed {
      m.DisconnectStreamer(taskId);
      assert m.streamers == old(m.streamers)[taskId := ws] - {taskId};
    }
  }

  /** `viewer_websocket`: register, echo every frame back to the viewer and
      on disconnect unregister. Nothing is sent to the streamer. */
  method ViewerEndpoint(m: ConnectionManager, taskId: int, ws: Handle, incoming: seq<string>)
    returns (sent: seq<Delivery>)
    modifies m
    ensures m.streamers == old(m.streamers)
    ensures m.viewers == old(m.viewers)[taskId := ws] - {taskId}
    ensures |sent| == |incoming|
    ensures forall i :: 0 <= i < |incoming| ==> sent[i] == SendText(ws, incoming[i])
  {
    m.ConnectViewer(taskId, ws);
    sent := EchoLoop(ws, incoming);
    m.DisconnectViewer(taskId);
  }

  /** Forwarding is faithful: with a viewer registered, the viewer receives
      exactly the offers, unchanged and in arrival order; without one,
      nothing is delivered. */
  lemma RelayFaithful(viewer: Option<Handle>, frames: seq<Frame>)
    ensures viewer.None? ==> Relay(viewer, Offers(frames)) == []
    ensures viewer.Some? ==> |Relay(viewer, Offers(frames))| == |Offers(frames)|
    ensures viewer.Some? ==> forall i :: 0 <= i < |Offers(frames)| ==>
      Relay(viewer, Offers(frames))[i] == SendJson(viewer.value, Offers(frames)[i])
    ensures forall d :: d in Relay(viewer, Offers(frames)) ==>
      d.SendJson? && IsOffer(d.message) && d.message in frames
  {
    OffersExactly(frames);
    var r := Relay(viewer, Offers(frames));
    forall d | d in r
      ensures d.SendJson? && IsOffer(d.message) && d.message in frames
    {
      var i :| 0 <= i < |r| && r[i] == d;
      assert d.message == Offers(frames)[i];
    }
  }
}
