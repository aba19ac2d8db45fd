/** One-click submission with retries, as the client keeps it: calls that pause while a request is
    prepared or awaits its answer share one flag and one pending attempt. */
module Submission {
  import opened Results
  import opened Base64

  const MAX_BODY: nat := 2 * 1024 * 1024
  const API := "/api/v1/"

  type Key = string

  /** What the JSON printer makes of a body. */
  datatype Body = Absent | Unprintable | Printed(utf8: seq<Byte>)
  datatype Request = Request(path: string, body: Body)
  datatype Message = Message(key: Key, request: Request)

  /** An intended operation; the path is empty until its request has been prepared. */
  datatype Attempt = Attempt(fingerprint: string, key: Key, request: Request) {
    function Sends(): Message { Message(key, request) }
  }

  datatype Stage = Preparing | Waiting

  /** A paused call and the attempt it holds on to. */
  datatype Call = Call(attempt: nat, stage: Stage)

  datatype Client = Client(running: bool, pending: Option<nat>, attempts: seq<Attempt>, calls: seq<Call>)

  /** The client after a turn, and what the turn handed to the network. */
  datatype Turn = Turn(client: Client, sent: Option<Message>)

  predicate Contains(s: string, part: string) {
    exists i, j :: 0 <= i <= j <= |s| && s[i..j] == part
  }

  /** The transport refuses other addresses and oversized bodies before it sends anything. */
  predicate Sendable(r: Request) {
    && API <= r.path && !Contains(r.path, "://")
    && !r.body.Unprintable?
    && (r.body.Printed? ==> |r.body.utf8| <= MAX_BODY)
  }

  /** Indices of attempts are references to the objects the calls share. */
  predicate Sound(c: Client) {
    && (c.pending.Some? ==> c.pending.value < |c.attempts|)
    && (forall k :: k in c.calls ==> k.attempt < |c.attempts|)
  }

  function Remove(calls: seq<Call>, i: nat): seq<Call>
    requires i < |calls|
  {
    calls[..i] + calls[i + 1..]
  }

  predicate Resumable(c: Client, fingerprint: string)
    requires Sound(c)
  {
    c.pending.Some? && c.attempts[c.pending.value].fingerprint == fingerprint
  }

  function Transmit(c: Client, a: nat): Turn
    requires a < |c.attempts|
  {
    if Sendable(c.attempts[a].request)
    then Turn(c.(calls := c.calls + [Call(a, Waiting)]), Some(c.attempts[a].Sends()))
    else Turn(c.(running := false), None)
  }

  function Clicked(c: Client, preview: bool, fingerprint: string, key: Key): Turn
    requires Sound(c)
  {
    if preview || c.running then Turn(c, None)
    else
      var a := if Resumable(c, fingerprint) then c.pending.value else |c.attempts|;
      var attempts := if Resumable(c, fingerprint) then c.attempts
                      else c.attempts + [Attempt(fingerprint, key, Request("", Absent))];
      var begun := Client(true, Some(a), attempts, c.calls);
      if attempts[a].request.path == "" then Turn(begun.(calls := c.calls + [Call(a, Preparing)]), None)
      else Transmit(begun, a)
  }

  function Prepared(c: Client, i: nat, request: Request): Turn
    requires Sound(c) && i < |c.calls|
  {
    var a := c.calls[i].attempt;
    Transmit(c.(attempts := c.attempts[a := c.attempts[a].(request := request)], calls := Remove(c.calls, i)), a)
  }

  function Failed(c: Client, i: nat): Client
    requires i < |c.calls|
  {
    c.(running := false, calls := Remove(c.calls, i))
  }

  function Received(c: Client, i: nat): Client
    requires i < |c.calls|
  {
    c.(running := false, pending := None, calls := Remove(c.calls, i))
  }

  // ----- what is sent -----

  lemma Splits(s: string, part: string)
    ensures Contains(s, part) <==> exists x: string, y: string :: s == x + part + y
  {
    if Contains(s, part) {
      var i, j :| 0 <= i <= j <= |s| && s[i..j] == part;
      assert s == s[..i] + part + s[j..];
    }
    if exists x: string, y: string :: s == x + part + y {
      var x: string, y: string :| s == x + part + y;
      assert s[|x|..|x| + |part|] == part;
    }
  }

  /** An address is sent exactly when it begins with the fixed prefix and no scheme separator stands anywhere in
      it, and a body exactly when it is missing or prints to at most two mebibytes. */
  lemma SentExactly(r: Request)
    ensures Sendable(r) <==>
            && (exists rest :: r.path == "/api/v1/" + rest)
            && !(exists x: string, y: string :: r.path == x + "://" + y)
            && (r.body == Absent || (r.body.Printed? && |r.body.utf8| <= 2097152))
  {
    if API <= r.path {
      assert r.path == "/api/v1/" + r.path[|API|..];
    }
    Splits(r.path, "://");
  }

  /** A prepared request that can be sent goes out under its attempt's own key. One that cannot leaves the
      attempt pending with the flag down, and the next click on the same form refuses it again without
      preparing anything, unless it has no address at all. */
  lemma PreparedSends(c: Client, i: nat, request: Request, key: Key)
    requires Sound(c) && i < |c.calls| && |c.calls| == 1 && c.pending == Some(c.calls[i].attempt)
    ensures var a, turn := c.calls[i].attempt, Prepared(c, i, request);
            && turn.client.pending == Some(a) && |turn.client.attempts| == |c.attempts|
            && (turn.sent.Some? <==> Sendable(request))
            && (Sendable(request) ==>
                  && turn.sent == Some(Message(c.attempts[a].key, request))
                  && turn.client.running == c.running && turn.client.calls == [Call(a, Waiting)])
            && (!Sendable(request) ==>
                  && !turn.client.running && turn.client.calls == []
                  && var again := Clicked(turn.client, false, c.attempts[a].fingerprint, key);
                     again.sent.None? && again.client == if request.path == ""
                       then turn.client.(running := true, calls := [Call(a, Preparing)]) else turn.client)
  {
    assert Remove(c.calls, i) == [];
  }

  /** The hook: each method is the code between two pauses of one call. */
  class Operation {
    const preview: bool
    var running: bool
    var pending: Option<nat>
    var attempts: seq<Attempt>
    var calls: seq<Call>

    constructor (preview: bool)
      ensures State() == Client(false, None, [], []) && this.preview == preview
    {
      this.preview := preview;
      running, pending, attempts, calls := false, None, [], [];
    }

    function State(): Client
      reads this
    {
      Client(running, pending, attempts, calls)
    }

    method Post(a: nat) returns (sent: Option<Message>)
      requires a < |attempts|
      modifies this
      ensures Turn(State(), sent) == Transmit(old(State()), a)
    {
      if !Sendable(attempts[a].request) {
        running := false;
        return None;
      }
      calls := calls + [Call(a, Waiting)];
      sent := Some(Message(attempts[a].key, attempts[a].request));
    }

    method Click(fingerprint: string, key: Key) returns (sent: Option<Message>)
      requires Sound(State())
      modifies this
      ensures Turn(State(), sent) == Clicked(old(State()), preview, fingerprint, key)
    {
      if preview || running {
        return None;
      }
      running := true;
      if pending.None? || attempts[pending.value].fingerprint != fingerprint {
        pending := Some(|attempts|);
        attempts := attempts + [Attempt(fingerprint, key, Request("", Absent))];
      }
      var a := pending.value;
      if attempts[a].request.path == "" {
        calls := calls + [Call(a, Preparing)];
        return None;
      }
      sent := Post(a);
    }

    method Prepare(i: nat, request: Request) returns (sent: Option<Message>)
      requires Sound(State()) && i < |calls|
      modifies this
      ensures Turn(State(), sent) == Prepared(old(State()), i, request)
    {
      var a := calls[i].attempt;
      calls := Remove(calls, i);
      attempts := attempts[a := attempts[a].(request := request)];
      sent := Post(a);
    }

    method Fail(i: nat)
      requires i < |calls|
      modifies this
      ensures State() == Failed(old(State()), i)
    {
      calls := Remove(calls, i);
      running := false;
    }

    method Receive(i: nat)
      requires i < |calls|
      modifies this
      ensures State() == Received(old(State()), i)
    {
      calls := Remove(calls, i);
      pending := None;
      running := false;
    }
  }
}
