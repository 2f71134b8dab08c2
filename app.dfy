/** One iteration of the control loop of app.py: choose a motor power from
    the two analog triggers, make sure the session holds a UDP client, send
    the power as decimal text to the fixed receiver, and record it in the
    history that scales the plot's y axis.

    The trigger readings come from an HID device through a module that is not
    part of this model; they are taken as integer inputs of each step. The
    socket send is recorded as a datagram appended to a trace. */
module App {
  import opened Wrappers
  import opened DecimalText

  /** A trigger reading whose magnitude is at most this is ignored. */
  const Deadzone: int := 4

  /** The fixed receiver of every datagram. */
  const Host: string := "192.168.1.75"
  const Port: int := 12345

  /** The key under which the Streamlit session state keeps the client. */
  const ClientKey: string := "client"

  /** Python's `abs` on an integer reading. */
  function Abs(x: int): (a: int)
    ensures a >= 0 && (a == x || a == -x)
  {
    if x < 0 then -x else x
  }

  /** The UDP endpoint object stored in the session state
      (`eth("client", host, port)`). */
  datatype Client = Client(role: string, host: string, port: int)

  /** The client the loop creates when the session has none. */
  const NewClient: Client := Client("client", Host, Port)

  /** One `sendto`: the socket it went through, the bytes and the destination. */
  datatype Datagram = Datagram(via: Client, payload: seq<byte>, host: string, port: int)

  /** The power the triggers command, by priority: the right trigger when it
      is outside the deadzone, else the left trigger when it is, else 0. */
  function TriggerPower(l2: int, r2: int): (p: int)
    ensures p == 0 || p == l2 || p == r2
    ensures p != 0 ==> Abs(p) > Deadzone
  {
    if Abs(r2) > Deadzone then r2 else if Abs(l2) > Deadzone then l2 else 0
  }

  /** The loop's own power selection: start at 0, take the left trigger if
      it is outside the deadzone, then let the right trigger override. */
  method SelectPower(l2: int, r2: int) returns (power: int)
    ensures power == TriggerPower(l2, r2)
    ensures Abs(r2) > Deadzone ==> power == r2
    ensures Abs(r2) <= Deadzone && Abs(l2) > Deadzone ==> power == l2
    ensures Abs(r2) <= Deadzone && Abs(l2) <= Deadzone ==> power == 0
  {
    power := 0;
    if Abs(l2) > Deadzone {
      power := l2;
    }
    if Abs(r2) > Deadzone {
      power := r2;
    }
  }

  /** Both triggers inside the deadzone command no power at all. */
  lemma BothIdleGivesZero(l2: int, r2: int)
    requires Abs(l2) <= Deadzone && Abs(r2) <= Deadzone
    ensures TriggerPower(l2, r2) == 0
  {
  }

  /** An active right trigger wins, whatever the left trigger reads. */
  lemma RightTriggerWins(l2: int, l2': int, r2: int)
    requires Abs(r2) > Deadzone
    ensures TriggerPower(l2, r2) == r2 == TriggerPower(l2', r2)
  {
  }

  /** With the right trigger idle, an active left trigger sets the power. */
  lemma LeftTriggerAlone(l2: int, r2: int)
    requires Abs(l2) > Deadzone && Abs(r2) <= Deadzone
    ensures TriggerPower(l2, r2) == l2
  {
  }

  /** The largest element of a non-empty sequence (Python's `max`): it
      bounds every element ... */
  function Max(s: seq<int>): (m: int)
    requires |s| > 0
    ensures forall i :: 0 <= i < |s| ==> s[i] <= m
  {
    if |s| == 1 then s[0]
    else
      var rest := Max(s[1..]);
      if s[0] >= rest then s[0] else rest
  }

  /** ... and is one of them, so no smaller bound exists. */
  lemma {:induction false} MaxAttained(s: seq<int>)
    requires |s| > 0
    ensures Max(s) in s
  {
    if |s| > 1 {
      MaxAttained(s[1..]);
    }
  }

  /** The y range is anchored at 0, so when every recorded power is
      negative its upper end falls below 0 and the range leaves them out. */
  lemma NegativeHistoryOutsideYRange(h: seq<int>)
    requires |h| > 0 && forall i :: 0 <= i < |h| ==> h[i] < 0
    ensures Max(h) + 1 <= 0
    ensures forall i :: 0 <= i < |h| ==> !(0 <= h[i] <= Max(h) + 1)
  {
    MaxAttained(h);
  }

  /** The y range `[0, max(history) + 1]` the plot is given. */
  datatype YRange = YRange(lo: int, hi: int)

  /** The state one run of `main` carries across iterations: the session
      state (which outlives the run), the power history, the y range last
      set, and the trace of datagrams sent. */
  class Session {
    var sessionState: map<string, Client>
    var history: seq<int>
    var yLimits: Option<YRange>
    var sent: seq<Datagram>
    /** How many clients this run has created. */
    ghost var clientsCreated: nat

    /** One datagram per recorded power, each carrying that power's text to
        the fixed receiver through the session's one client; at most one
        client created, and only into an empty slot; once anything is
        recorded the y range covers it. */
    ghost predicate Valid()
      reads this
    {
      && |sent| == |history|
      && (forall i :: 0 <= i < |sent| ==>
            sent[i].payload == Payload(history[i]) && sent[i].host == Host && sent[i].port == Port)
      && clientsCreated <= 1
      && (clientsCreated == 1 ==> ClientKey in sessionState)
      && (|history| > 0 ==> ClientKey in sessionState)
      && (forall i :: 0 <= i < |sent| ==> sent[i].via == sessionState[ClientKey])
      && (history == [] <==> yLimits == None)
      && (history != [] ==> yLimits == Some(YRange(0, Max(history) + 1)))
    }

    /** The start of `main`: an empty history, nothing sent yet, and the
        session state as earlier runs left it. */
    constructor (sessionState: map<string, Client>)
      ensures Valid()
      ensures this.sessionState == sessionState
      ensures history == [] && sent == [] && yLimits == None && clientsCreated == 0
    {
      this.sessionState := sessionState;
      history := [];
      yLimits := None;
      sent := [];
      clientsCreated := 0;
    }

    /** One iteration of the loop for trigger readings `l2` and `r2`. */
    method Step(l2: int, r2: int) returns (power: int)
      requires Valid()
      modifies this
      ensures Valid()
      ensures power == TriggerPower(l2, r2)
      // the client is created only when the session has none, and kept
      ensures sessionState == if ClientKey in old(sessionState) then old(sessionState)
                              else old(sessionState)[ClientKey := NewClient]
      ensures clientsCreated == old(clientsCreated) + (if ClientKey in old(sessionState) then 0 else 1)
      // exactly one datagram, through the session's client, to the fixed receiver
      ensures sent == old(sent) + [Datagram(sessionState[ClientKey], Payload(power), Host, Port)]
      // exactly one new history entry, and the y range covers all of them
      ensures history == old(history) + [power]
      ensures yLimits == Some(YRange(0, Max(history) + 1))
    {
      power := SelectPower(l2, r2);

      if ClientKey !in sessionState {
        assert sent == [];
        sessionState := sessionState[ClientKey := NewClient];
        clientsCreated := clientsCreated + 1;
      }
      var bytes := Payload(power);
      sent := sent + [Datagram(sessionState[ClientKey], bytes, Host, Port)];

      history := history + [power];
      yLimits := Some(YRange(0, Max(history) + 1));
    }
  }
}
