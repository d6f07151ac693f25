/**
 * `event_handler`: Wi-Fi station events drive the CONNECTED_BIT of the event
 * group the worker waits on, and issue `esp_wifi_connect` requests. There is
 * no separate "connecting" state: only the bit and the requests.
 */
module Connectivity {
  import opened Wire

  datatype Event = StaStart | StaGotIp | StaDisconnected | OtherEvent(id: int)

  /** The connected bit and how many connect requests have been issued. */
  datatype Status = Status(connected: bool, connects: nat)

  /** What `event_handler` does with one event. */
  function Handle(s: Status, e: Event): Status {
    match e
    case StaStart => s.(connects := s.connects + 1)
    case StaGotIp => s.(connected := true)
    case StaDisconnected => Status(false, s.connects + 1)
    case OtherEvent(_) => s
  }

  /** Events delivered one after another, oldest first. */
  function Replay(s: Status, events: seq<Event>): Status
    decreases |events|
  {
    if events == [] then s else Replay(Handle(s, events[0]), events[1..])
  }

  /** The bit as the last event that touches it leaves it, if any event does. */
  function LastLinkEvent(events: seq<Event>): Option<bool>
    decreases |events|
  {
    if events == [] then None
    else
      var e := events[|events| - 1];
      if e.StaGotIp? then Some(true)
      else if e.StaDisconnected? then Some(false)
      else LastLinkEvent(events[..|events| - 1])
  }

  /** The events that make `event_handler` call `esp_wifi_connect`. */
  function ConnectRequests(events: seq<Event>): nat
    decreases |events|
  {
    if events == [] then 0
    else
      var e := events[|events| - 1];
      ConnectRequests(events[..|events| - 1]) + (if e.StaStart? || e.StaDisconnected? then 1 else 0)
  }

  lemma {:induction false} ReplaySnoc(s: Status, events: seq<Event>, e: Event)
    ensures Replay(s, events + [e]) == Handle(Replay(s, events), e)
    decreases |events|
  {
    if events != [] {
      assert (events + [e])[1..] == events[1..] + [e];
      ReplaySnoc(Handle(s, events[0]), events[1..], e);
    }
  }

  /**
   * After any sequence of events the bit is set exactly when the last
   * GOT_IP/DISCONNECTED event was GOT_IP (unchanged if there was none), and one
   * connect request was issued per START and per DISCONNECTED event.
   */
  lemma {:induction false} ReplayOnline(s: Status, events: seq<Event>)
    ensures Replay(s, events).connected ==
              match LastLinkEvent(events)
              case None => s.connected
              case Some(b) => b
    ensures Replay(s, events).connects == s.connects + ConnectRequests(events)
    decreases |events|
  {
    if events != [] {
      var front := events[..|events| - 1];
      var e := events[|events| - 1];
      assert events == front + [e];
      ReplaySnoc(s, front, e);
      ReplayOnline(s, front);
    }
  }

  /** Delivering the same event twice leaves the bit as delivering it once. */
  lemma HandleTwice(s: Status, e: Event)
    ensures Handle(Handle(s, e), e).connected == Handle(s, e).connected
  {
  }

  /** The event group's CONNECTED_BIT together with the connect requests issued so far. */
  class WifiMonitor {
    var connected: bool
    var connects: nat

    function View(): Status
      reads this
    {
      Status(connected, connects)
    }

    /** `xEventGroupCreate`: all bits clear. */
    constructor ()
      ensures View() == Status(false, 0)
    {
      connected := false;
      connects := 0;
    }

    /** `event_handler`: the only writer of the bit. */
    method EventHandler(e: Event) returns (err: int)
      modifies this
      ensures View() == Handle(old(View()), e)
      ensures err == ESP_OK
    {
      match e {
        case StaStart =>
          connects := connects + 1;
        case StaGotIp =>
          connected := true;
        case StaDisconnected =>
          connects := connects + 1;
          connected := false;
        case OtherEvent(_) =>
      }
      err := ESP_OK;
    }
  }
}
