/** The submitting client, a network that may delay, repeat or lose what it carries, and the job queue
    that keeps one job per command type and idempotency key. */
module Delivery {
  import opened Results
  import opened Submission
  import opened Ordering

  type Kind = string
  type Content = string

  datatype Job = Job(kind: Kind, key: Key, content: Content)
  datatype Answer = Accepted(job: nat) | Conflict | Refused
  datatype Reply = Reply(message: Message, answer: Answer)
  datatype Resolution = Resolution(message: Message, content: Content)
  datatype Receipt = Receipt(attempt: nat, job: nat)

  // ----- the queue -----

  function Existing(jobs: seq<Job>, kind: Kind, key: Key): (r: Option<nat>)
    ensures r.Some? ==> r.value < |jobs| && jobs[r.value].kind == kind && jobs[r.value].key == key
    ensures r.None? ==> forall j :: 0 <= j < |jobs| ==> jobs[j].kind != kind || jobs[j].key != key
  {
    if jobs == [] then None
    else
      var last := |jobs| - 1;
      if jobs[last].kind == kind && jobs[last].key == key then Some(last) else Existing(jobs[..last], kind, key)
  }

  /** Storing a resolved command. */
  function Submit(jobs: seq<Job>, kind: Kind, key: Key, content: Content): (seq<Job>, Answer) {
    var found := Existing(jobs, kind, key);
    if found.None? then (jobs + [Job(kind, key, content)], Accepted(|jobs|))
    else if jobs[found.value].content != content then (jobs, Conflict)
    else (jobs, Accepted(found.value))
  }

  ghost predicate OnePerKey(jobs: seq<Job>) {
    forall i, j :: 0 <= i < j < |jobs| ==> jobs[i].kind != jobs[j].kind || jobs[i].key != jobs[j].key
  }

  /** A key already used for the same command gets the same job back, for another command a conflict,
      and only an unused key adds a job. */
  lemma SubmitDeduplicates(jobs: seq<Job>, kind: Kind, key: Key, content: Content)
    requires OnePerKey(jobs)
    ensures var (after, answer) := Submit(jobs, kind, key, content);
            && OnePerKey(after) && jobs <= after && |after| <= |jobs| + 1
            && (answer.Accepted? <==> Job(kind, key, content) in after)
            && (answer.Accepted? ==> answer.job < |after| && after[answer.job] == Job(kind, key, content))
            && (answer.Conflict? <==>
                exists j :: 0 <= j < |jobs| && jobs[j].kind == kind && jobs[j].key == key
                            && jobs[j].content != content)
            && Submit(after, kind, key, content) == (after, answer)
  {
    var (after, answer) := Submit(jobs, kind, key, content);
    if Existing(jobs, kind, key).None? {
      assert after[|jobs|] == Job(kind, key, content);
    }
  }

  // ----- the world -----

  /** Everything up to a moment: the client, keys drawn anywhere, messages handed to the network, stored
      jobs, and what has been resolved, answered, received and given up. */
  datatype World = World(client: Client, drawn: set<Key>, sent: set<Message>, jobs: seq<Job>,
                         resolved: set<Resolution>, replies: set<Reply>, receipts: seq<Receipt>, abandoned: nat)

  /** `Serve` handles any message ever sent, as often as the network delivers it; `outcome` is what the
      server resolves it to at that moment, if anything. `Foreign` is another client's request. */
  datatype Step =
    | Click(fingerprint: string, key: Key)
    | Prepare(call: nat, request: Request)
    | Fail(call: nat)
    | Receive(call: nat, job: nat)
    | Serve(message: Message, outcome: Option<Content>)
    | Foreign(kind: Kind, key: Key, content: Content)

  const START := World(Client(false, None, [], []), {}, {}, [], {}, {}, [], 0)

  ghost predicate Enabled(w: World, s: Step)
    requires Sound(w.client)
  {
    match s
    case Click(_, key) => key !in w.drawn
    case Prepare(i, _) => i < |w.client.calls| && w.client.calls[i].stage.Preparing?
    case Fail(i) => i < |w.client.calls|
    case Receive(i, job) =>
      && i < |w.client.calls| && w.client.calls[i].stage.Waiting?
      && Reply(w.client.attempts[w.client.calls[i].attempt].Sends(), Accepted(job)) in w.replies
    case Serve(m, _) => m in w.sent
    case Foreign(_, key, _) => forall a :: a in w.client.attempts ==> a.key != key
  }

  function Handed(sent: set<Message>, more: Option<Message>): set<Message> {
    if more.Some? then sent + {more.value} else sent
  }

  /** A click gives up the pending attempt when its form has changed. */
  predicate Abandons(w: World, preview: bool, fingerprint: string)
    requires Sound(w.client)
  {
    !preview && !w.client.running && w.client.pending.Some? && !Resumable(w.client, fingerprint)
  }

  ghost function After(kind: Request -> Kind, preview: bool, w: World, s: Step): World
    requires Sound(w.client) && Enabled(w, s)
  {
    match s
    case Click(fingerprint, key) =>
      var turn := Clicked(w.client, preview, fingerprint, key);
      w.(client := turn.client, drawn := w.drawn + {key}, sent := Handed(w.sent, turn.sent),
         abandoned := w.abandoned + if Abandons(w, preview, fingerprint) then 1 else 0)
    case Prepare(i, request) =>
      var turn := Prepared(w.client, i, request);
      w.(client := turn.client, sent := Handed(w.sent, turn.sent))
    case Fail(i) => w.(client := Failed(w.client, i))
    case Receive(i, job) =>
      w.(client := Received(w.client, i), receipts := w.receipts + [Receipt(w.client.calls[i].attempt, job)])
    case Serve(m, content) =>
      if content.None? then w.(replies := w.replies + {Reply(m, Refused)})
      else
        var (jobs, answer) := Submit(w.jobs, kind(m.request), m.key, content.value);
        w.(jobs := jobs, replies := w.replies + {Reply(m, answer)},
           resolved := w.resolved + {Resolution(m, content.value)})
    case Foreign(k, key, content) =>
      w.(drawn := w.drawn + {key}, jobs := Submit(w.jobs, k, key, content).0)
  }

  // ----- what every step keeps -----

  /** The flag is up exactly while a call is paused, at most one is, and it holds the pending attempt. */
  ghost predicate Exclusive(c: Client) {
    && Sound(c)
    && (c.running <==> c.calls != [])
    && |c.calls| <= 1
    && (c.calls != [] ==>
          c.pending == Some(c.calls[0].attempt) && StageFits(c.attempts[c.calls[0].attempt], c.calls[0].stage))
  }

  predicate StageFits(a: Attempt, stage: Stage) {
    match stage
    case Preparing => a.request.path == ""
    case Waiting => Sendable(a.request)
  }

  ghost predicate Keyed(attempts: seq<Attempt>, drawn: set<Key>) {
    && (forall i :: 0 <= i < |attempts| ==> attempts[i].key in drawn)
    && (forall i, j :: 0 <= i < j < |attempts| ==> attempts[i].key != attempts[j].key)
  }

  ghost predicate Traced(attempts: seq<Attempt>, m: Message) {
    Sendable(m.request) && exists i :: 0 <= i < |attempts| && attempts[i].Sends() == m
  }

  ghost predicate Faithful(attempts: seq<Attempt>, sent: set<Message>) {
    forall m :: m in sent ==> Traced(attempts, m)
  }

  ghost predicate Disagree(resolved: set<Resolution>, m: Message) {
    exists c, d :: c != d && Resolution(m, c) in resolved && Resolution(m, d) in resolved
  }

  /** Where the server's state comes from. */
  ghost predicate Caused(sent: set<Message>, drawn: set<Key>, jobs: seq<Job>, resolved: set<Resolution>) {
    && OnePerKey(jobs)
    && (forall j :: 0 <= j < |jobs| ==> jobs[j].key in drawn)
    && (forall r :: r in resolved ==> r.message in sent)
  }

  ghost predicate Origin(kind: Request -> Kind, attempts: seq<Attempt>, jobs: seq<Job>, resolved: set<Resolution>) {
    forall i, j :: 0 <= i < |attempts| && 0 <= j < |jobs| && attempts[i].key == jobs[j].key ==>
      jobs[j].kind == kind(attempts[i].request) && Resolution(attempts[i].Sends(), jobs[j].content) in resolved
  }

  ghost predicate Truthful(kind: Request -> Kind, r: Reply, jobs: seq<Job>, resolved: set<Resolution>) {
    match r.answer
    case Accepted(j) => j < |jobs| && jobs[j].key == r.message.key && jobs[j].kind == kind(r.message.request)
    case Conflict => Disagree(resolved, r.message)
    case Refused => true
  }

  ghost predicate Answered(kind: Request -> Kind, sent: set<Message>, jobs: seq<Job>, resolved: set<Resolution>,
                           replies: set<Reply>)
  {
    forall r :: r in replies ==> r.message in sent && Truthful(kind, r, jobs, resolved)
  }

  /** Every attempt is pending, received or given up, and no attempt is received twice. */
  ghost predicate Accounted(c: Client, jobs: seq<Job>, receipts: seq<Receipt>, abandoned: nat) {
    && |c.attempts| == |receipts| + abandoned + (if c.pending.Some? then 1 else 0)
    && (forall i :: 0 <= i < |receipts| ==> Closed(c, jobs, receipts[i]))
    && (forall i, j :: 0 <= i < j < |receipts| ==> receipts[i].attempt != receipts[j].attempt)
  }

  ghost predicate Closed(c: Client, jobs: seq<Job>, r: Receipt) {
    && r.attempt < |c.attempts| && r.job < |jobs|
    && c.attempts[r.attempt].key == jobs[r.job].key
    && c.pending != Some(r.attempt)
  }

  ghost predicate Safe(kind: Request -> Kind, preview: bool, w: World) {
    && Exclusive(w.client)
    && Keyed(w.client.attempts, w.drawn)
    && Faithful(w.client.attempts, w.sent)
    && Caused(w.sent, w.drawn, w.jobs, w.resolved)
    && Origin(kind, w.client.attempts, w.jobs, w.resolved)
    && Answered(kind, w.sent, w.jobs, w.resolved, w.replies)
    && Accounted(w.client, w.jobs, w.receipts, w.abandoned)
    && (preview ==> w.client.attempts == [])
  }

  // ----- the client's turns -----

  /** Attempts only change while unprepared, keep their keys, and are added with keys not drawn before. */
  ghost predicate Evolves(before: seq<Attempt>, after: seq<Attempt>, drawn: set<Key>) {
    && |before| <= |after| <= |before| + 1
    && (forall i :: 0 <= i < |before| ==> after[i].key == before[i].key)
    && (forall i :: 0 <= i < |before| ==> after[i] == before[i] || before[i].request.path == "")
    && (|after| > |before| ==> after[|before|].key !in drawn)
  }

  lemma ClickTurn(c: Client, preview: bool, fingerprint: string, key: Key, drawn: set<Key>)
    requires Exclusive(c) && key !in drawn
    ensures var turn := Clicked(c, preview, fingerprint, key);
            && Exclusive(turn.client) && Evolves(c.attempts, turn.client.attempts, drawn)
            && (turn.sent.Some? ==> Traced(turn.client.attempts, turn.sent.value))
            && forall i :: 0 <= i < |turn.client.attempts| ==> turn.client.attempts[i].key == key || i < |c.attempts|
  {
    var turn := Clicked(c, preview, fingerprint, key);
    if turn.sent.Some? {
      assert turn.client.attempts[turn.client.pending.value].Sends() == turn.sent.value;
    }
  }

  lemma PrepareTurn(c: Client, request: Request, drawn: set<Key>)
    requires Exclusive(c) && c.calls != [] && c.calls[0].stage.Preparing?
    ensures var turn := Prepared(c, 0, request);
            && Exclusive(turn.client) && Evolves(c.attempts, turn.client.attempts, drawn)
            && |turn.client.attempts| == |c.attempts| && turn.client.pending == c.pending
            && (turn.sent.Some? ==> Traced(turn.client.attempts, turn.sent.value))
  {
    var turn := Prepared(c, 0, request);
    if turn.sent.Some? {
      assert turn.client.attempts[turn.client.pending.value].Sends() == turn.sent.value;
    }
  }

  lemma EvolvesFaithful(before: seq<Attempt>, after: seq<Attempt>, drawn: set<Key>, sent: set<Message>,
                        more: Option<Message>)
    requires Faithful(before, sent) && Evolves(before, after, drawn)
    requires more.Some? ==> Traced(after, more.value)
    ensures Faithful(after, Handed(sent, more))
  {
    forall m | m in sent ensures Traced(after, m) {
      var i :| 0 <= i < |before| && before[i].Sends() == m;
      assert API <= m.request.path && after[i] == before[i];
    }
  }

  lemma EvolvesOrigin(kind: Request -> Kind, before: seq<Attempt>, after: seq<Attempt>, drawn: set<Key>,
                      sent: set<Message>, jobs: seq<Job>, resolved: set<Resolution>)
    requires Faithful(before, sent) && Caused(sent, drawn, jobs, resolved) && Origin(kind, before, jobs, resolved)
    requires Evolves(before, after, drawn)
    ensures Origin(kind, after, jobs, resolved)
  {
    forall i, j | 0 <= i < |after| && 0 <= j < |jobs| && after[i].key == jobs[j].key
      ensures jobs[j].kind == kind(after[i].request) && Resolution(after[i].Sends(), jobs[j].content) in resolved
    {
      assert i < |before|;
      var m := before[i].Sends();
      assert Resolution(m, jobs[j].content).message in sent;
      assert Traced(before, m);
      assert API <= m.request.path;
    }
  }

  lemma EvolvesAccounted(c: Client, d: Client, drawn: set<Key>, jobs: seq<Job>, receipts: seq<Receipt>, abandoned: nat,
                         more: nat)
    requires Accounted(c, jobs, receipts, abandoned)
    requires Evolves(c.attempts, d.attempts, drawn)
    requires |d.attempts| - |c.attempts|
             == more + (if d.pending.Some? then 1 else 0) - (if c.pending.Some? then 1 else 0)
    requires d.pending == c.pending || d.pending == Some(|c.attempts|)
    ensures Accounted(d, jobs, receipts, abandoned + more)
  {
    forall i | 0 <= i < |receipts| ensures Closed(d, jobs, receipts[i]) {
      assert Closed(c, jobs, receipts[i]);
    }
  }

  // ----- every step -----

  lemma StartSafe(kind: Request -> Kind, preview: bool)
    ensures Safe(kind, preview, START)
  {
  }

  lemma ClickSafe(kind: Request -> Kind, preview: bool, w: World, fingerprint: string, key: Key)
    requires Safe(kind, preview, w) && key !in w.drawn
    ensures Safe(kind, preview, After(kind, preview, w, Click(fingerprint, key)))
  {
    var turn := Clicked(w.client, preview, fingerprint, key);
    ClickTurn(w.client, preview, fingerprint, key, w.drawn);
    EvolvesFaithful(w.client.attempts, turn.client.attempts, w.drawn, w.sent, turn.sent);
    EvolvesOrigin(kind, w.client.attempts, turn.client.attempts, w.drawn, w.sent, w.jobs, w.resolved);
    EvolvesAccounted(w.client, turn.client, w.drawn, w.jobs, w.receipts, w.abandoned,
                     if Abandons(w, preview, fingerprint) then 1 else 0);
  }

  lemma PrepareSafe(kind: Request -> Kind, preview: bool, w: World, i: nat, request: Request)
    requires Safe(kind, preview, w) && Enabled(w, Prepare(i, request))
    ensures Safe(kind, preview, After(kind, preview, w, Prepare(i, request)))
  {
    var turn := Prepared(w.client, i, request);
    PrepareTurn(w.client, request, w.drawn);
    EvolvesFaithful(w.client.attempts, turn.client.attempts, w.drawn, w.sent, turn.sent);
    EvolvesOrigin(kind, w.client.attempts, turn.client.attempts, w.drawn, w.sent, w.jobs, w.resolved);
    EvolvesAccounted(w.client, turn.client, w.drawn, w.jobs, w.receipts, w.abandoned, 0);
  }

  /** More jobs and resolutions leave every answer and receipt true. */
  lemma GrowthKeeps(kind: Request -> Kind, w: World, jobs: seq<Job>, resolved: set<Resolution>)
    requires w.jobs <= jobs && w.resolved <= resolved
    requires Answered(kind, w.sent, w.jobs, w.resolved, w.replies)
    requires Accounted(w.client, w.jobs, w.receipts, w.abandoned)
    ensures Answered(kind, w.sent, jobs, resolved, w.replies)
    ensures Accounted(w.client, jobs, w.receipts, w.abandoned)
  {
    forall r | r in w.replies ensures r.message in w.sent && Truthful(kind, r, jobs, resolved) {
      assert Truthful(kind, r, w.jobs, w.resolved);
    }
    forall i | 0 <= i < |w.receipts| ensures Closed(w.client, jobs, w.receipts[i]) {
      assert Closed(w.client, w.jobs, w.receipts[i]);
    }
  }

  /** The attempt behind a message handed to the network. */
  lemma Sender(w: World, m: Message) returns (a: nat)
    requires Faithful(w.client.attempts, w.sent) && m in w.sent
    ensures a < |w.client.attempts| && w.client.attempts[a].Sends() == m
  {
    assert Traced(w.client.attempts, m);
    a :| 0 <= a < |w.client.attempts| && w.client.attempts[a].Sends() == m;
  }

  lemma ServedOrigin(kind: Request -> Kind, preview: bool, w: World, m: Message, content: Content)
    requires Safe(kind, preview, w) && m in w.sent
    ensures var jobs := Submit(w.jobs, kind(m.request), m.key, content).0;
            Origin(kind, w.client.attempts, jobs, w.resolved + {Resolution(m, content)})
  {
    var jobs := Submit(w.jobs, kind(m.request), m.key, content).0;
    var a := Sender(w, m);
    forall i, j | 0 <= i < |w.client.attempts| && 0 <= j < |jobs| && w.client.attempts[i].key == jobs[j].key
      ensures jobs[j].kind == kind(w.client.attempts[i].request)
      ensures Resolution(w.client.attempts[i].Sends(), jobs[j].content) in w.resolved + {Resolution(m, content)}
    {
      if j == |w.jobs| {
        assert i == a;
      }
    }
  }

  lemma ServeSafe(kind: Request -> Kind, preview: bool, w: World, m: Message, content: Content)
    requires Safe(kind, preview, w) && m in w.sent
    ensures Safe(kind, preview, After(kind, preview, w, Serve(m, Some(content))))
  {
    var (jobs, answer) := Submit(w.jobs, kind(m.request), m.key, content);
    var resolved := w.resolved + {Resolution(m, content)};
    SubmitDeduplicates(w.jobs, kind(m.request), m.key, content);
    ServedOrigin(kind, preview, w, m, content);
    GrowthKeeps(kind, w, jobs, resolved);
    var a := Sender(w, m);
    if answer.Conflict? {
      var j := Existing(w.jobs, kind(m.request), m.key).value;
      assert w.client.attempts[a].key == w.jobs[j].key;
      assert Resolution(m, w.jobs[j].content) in resolved && Resolution(m, content) in resolved;
    }
    assert Truthful(kind, Reply(m, answer), jobs, resolved);
    assert w.client.attempts[a].key in w.drawn;
  }

  lemma ReceiveSafe(kind: Request -> Kind, preview: bool, w: World, i: nat, job: nat)
    requires Safe(kind, preview, w) && Enabled(w, Receive(i, job))
    ensures Safe(kind, preview, After(kind, preview, w, Receive(i, job)))
  {
    var a := w.client.calls[i].attempt;
    var d := Received(w.client, i);
    assert Truthful(kind, Reply(w.client.attempts[a].Sends(), Accepted(job)), w.jobs, w.resolved);
    forall r | r in w.receipts ensures Closed(d, w.jobs, r) && r.attempt != a {
      assert Closed(w.client, w.jobs, r);
    }
  }

  lemma ForeignSafe(kind: Request -> Kind, preview: bool, w: World, k: Kind, key: Key, content: Content)
    requires Safe(kind, preview, w) && Enabled(w, Foreign(k, key, content))
    ensures Safe(kind, preview, After(kind, preview, w, Foreign(k, key, content)))
  {
    SubmitDeduplicates(w.jobs, k, key, content);
    GrowthKeeps(kind, w, Submit(w.jobs, k, key, content).0, w.resolved);
  }

  lemma StepSafe(kind: Request -> Kind, preview: bool, w: World, s: Step)
    requires Safe(kind, preview, w) && Enabled(w, s)
    ensures Safe(kind, preview, After(kind, preview, w, s))
  {
    match s
    case Click(fingerprint, key) => ClickSafe(kind, preview, w, fingerprint, key);
    case Prepare(i, request) => PrepareSafe(kind, preview, w, i, request);
    case Fail(i) =>
      forall j | 0 <= j < |w.receipts| ensures Closed(Failed(w.client, i), w.jobs, w.receipts[j]) {
        assert Closed(w.client, w.jobs, w.receipts[j]);
      }
    case Receive(i, job) => ReceiveSafe(kind, preview, w, i, job);
    case Serve(m, outcome) =>
      if outcome.Some? {
        ServeSafe(kind, preview, w, m, outcome.value);
      }
    case Foreign(k, key, content) => ForeignSafe(kind, preview, w, k, key, content);
  }

  // ----- whole runs -----

  ghost predicate Happens(kind: Request -> Kind, preview: bool, w: World, s: Step, v: World) {
    Sound(w.client) && Enabled(w, s) && v == After(kind, preview, w, s)
  }

  ghost predicate Run(kind: Request -> Kind, preview: bool, ws: seq<World>, steps: seq<Step>) {
    && |ws| == |steps| + 1 && ws[0] == START
    && forall i :: 0 <= i < |steps| ==> HappensAt(kind, preview, ws, steps, i)
  }

  ghost predicate HappensAt(kind: Request -> Kind, preview: bool, ws: seq<World>, steps: seq<Step>, i: int)
    requires |ws| == |steps| + 1 && 0 <= i < |steps|
  {
    Happens(kind, preview, ws[i], steps[i], ws[i + 1])
  }

  lemma {:induction false} RunSafe(kind: Request -> Kind, preview: bool, ws: seq<World>, steps: seq<Step>, n: nat)
    requires Run(kind, preview, ws, steps) && n < |ws|
    ensures Safe(kind, preview, ws[n])
  {
    if n == 0 {
      StartSafe(kind, preview);
    } else {
      RunSafe(kind, preview, ws, steps, n - 1);
      assert HappensAt(kind, preview, ws, steps, n - 1);
      StepSafe(kind, preview, ws[n - 1], steps[n - 1]);
    }
  }

  /** At any moment of any run at most one call is paused, exactly while the flag is up, and nothing is
      ever sent in a preview. */
  lemma OneCallAtATime(kind: Request -> Kind, preview: bool, ws: seq<World>, steps: seq<Step>, n: nat)
    requires Run(kind, preview, ws, steps) && n < |ws|
    ensures |ws[n].client.calls| <= 1 && (ws[n].client.calls != [] <==> ws[n].client.running)
    ensures preview ==> ws[n].sent == {}
  {
    RunSafe(kind, preview, ws, steps, n);
    forall m | m in ws[n].sent ensures !preview {
      var a := Sender(ws[n], m);
    }
  }

  /** A key stands for one path and body over the whole run. */
  lemma OneRequestPerKey(kind: Request -> Kind, preview: bool, ws: seq<World>, steps: seq<Step>, k: nat, n: nat,
                         l: Message, m: Message)
    requires Run(kind, preview, ws, steps) && k <= n < |ws|
    requires l in ws[k].sent && m in ws[n].sent && l.key == m.key
    ensures l == m
  {
    RunSafe(kind, preview, ws, steps, n);
    SentStays(kind, preview, ws, steps, k, n);
    var a := Sender(ws[n], l);
    var b := Sender(ws[n], m);
  }

  lemma {:induction false} SentStays(kind: Request -> Kind, preview: bool, ws: seq<World>, steps: seq<Step>, k: nat,
                                     n: nat)
    requires Run(kind, preview, ws, steps) && k <= n < |ws|
    ensures ws[k].sent <= ws[n].sent
  {
    if k < n {
      SentStays(kind, preview, ws, steps, k, n - 1);
      assert HappensAt(kind, preview, ws, steps, n - 1);
    }
  }

  /** The jobs stored for this client's attempts. */
  ghost function Own(w: World): set<nat> {
    set j: nat | j < |w.jobs| && OwnedBy(w, j)
  }

  ghost predicate OwnedBy(w: World, j: nat)
    requires j < |w.jobs|
  {
    exists a :: 0 <= a < |w.client.attempts| && w.client.attempts[a].key == w.jobs[j].key
  }

  lemma {:induction false} Injection<A, B>(s: set<A>, t: set<B>, f: map<A, B>)
    requires forall x :: x in s ==> x in f && f[x] in t
    requires forall x, y :: x in s && y in s && x != y ==> f[x] != f[y]
    ensures |s| <= |t|
  {
    if s != {} {
      var x :| x in s;
      Injection(s - {x}, t - {f[x]}, f);
    }
  }

  /** No attempt is stored twice. */
  lemma OneJobPerAttempt(kind: Request -> Kind, preview: bool, w: World, i: nat, j: nat)
    requires Safe(kind, preview, w) && i in Own(w) && j in Own(w) && w.jobs[i].key == w.jobs[j].key
    ensures i == j
  {
    var a :| 0 <= a < |w.client.attempts| && w.client.attempts[a].key == w.jobs[i].key;
    assert w.client.attempts[a].key == w.jobs[j].key;
    assert w.jobs[i].kind == w.jobs[j].kind == kind(w.client.attempts[a].request);
  }

  lemma NoMoreJobsThanAttempts(kind: Request -> Kind, preview: bool, w: World)
    requires Safe(kind, preview, w)
    ensures |Own(w)| <= |w.client.attempts|
  {
    var owners := map j | j in Own(w) ::
      var a :| 0 <= a < |w.client.attempts| && w.client.attempts[a].key == w.jobs[j].key; a;
    forall i, j | i in Own(w) && j in Own(w) && i != j ensures owners[i] != owners[j] {
      if owners[i] == owners[j] {
        OneJobPerAttempt(kind, preview, w, i, j);
      }
    }
    Injection(Own(w), Numbers(|w.client.attempts|), owners);
  }

  lemma ReceiptsHaveJobs(c: Client, jobs: seq<Job>, receipts: seq<Receipt>, abandoned: nat, i: nat, j: nat)
    requires Accounted(c, jobs, receipts, abandoned) && i < |receipts| && j < |receipts|
    requires forall a, b :: 0 <= a < b < |c.attempts| ==> c.attempts[a].key != c.attempts[b].key
    ensures receipts[i].job < |jobs| && receipts[i].attempt < |c.attempts|
    ensures c.attempts[receipts[i].attempt].key == jobs[receipts[i].job].key
    ensures i != j ==> receipts[i].job != receipts[j].job
  {
    assert Closed(c, jobs, receipts[i]) && Closed(c, jobs, receipts[j]);
  }

  lemma ReceiptOwned(w: World, i: nat)
    requires Accounted(w.client, w.jobs, w.receipts, w.abandoned) && i < |w.receipts|
    ensures w.receipts[i].job in Own(w)
  {
    assert Closed(w.client, w.jobs, w.receipts[i]);
  }

  lemma NoMoreReceiptsThanJobs(kind: Request -> Kind, preview: bool, w: World)
    requires Safe(kind, preview, w)
    ensures |w.receipts| <= |Own(w)|
  {
    var received := map i | i in Numbers(|w.receipts|) :: w.receipts[i].job;
    forall i | i in Numbers(|w.receipts|) ensures received[i] in Own(w) {
      ReceiptOwned(w, i);
    }
    forall i, j | i in Numbers(|w.receipts|) && j in Numbers(|w.receipts|) && i != j
      ensures received[i] != received[j]
    {
      ReceiptsHaveJobs(w.client, w.jobs, w.receipts, w.abandoned, i, j);
    }
    Injection(Numbers(|w.receipts|), Own(w), received);
  }

  /** Whatever was clicked, failed, lost or repeated: every receipt stands for a job of its own, and there
      are no more jobs than receipts, attempts given up because the form changed, and the pending one. */
  lemma JobsAccounted(kind: Request -> Kind, preview: bool, ws: seq<World>, steps: seq<Step>, n: nat)
    requires Run(kind, preview, ws, steps) && n < |ws|
    ensures var w := ws[n];
            |w.receipts| <= |Own(w)| <= |w.receipts| + w.abandoned + (if w.client.pending.Some? then 1 else 0)
  {
    RunSafe(kind, preview, ws, steps, n);
    NoMoreJobsThanAttempts(kind, preview, ws[n]);
    NoMoreReceiptsThanJobs(kind, preview, ws[n]);
  }

  // ----- one form, from any moment up to its receipt -----

  /** The attempt that clicks on `form` work on from here: the pending one if it is for this form, else
      the next to be made. */
  function AttemptFor(c: Client, form: string): nat
    requires Sound(c)
  {
    if Resumable(c, form) then c.pending.value else |c.attempts|
  }

  /** From step `m` up to step `n` only this form is clicked and no receipt arrives. */
  ghost predicate OnlyForm(steps: seq<Step>, m: nat, n: nat, form: string)
    requires n <= |steps|
  {
    forall i :: m <= i < n ==> !steps[i].Receive? && (steps[i].Click? ==> steps[i].fingerprint == form)
  }

  ghost predicate SameForms(before: seq<Attempt>, after: seq<Attempt>) {
    |before| <= |after| && forall i :: 0 <= i < |before| ==> after[i].fingerprint == before[i].fingerprint
  }

  /** Since `v` either no click has counted, or all that did worked on the one attempt for the form. */
  ghost predicate OnOneAttempt(v: World, w: World, form: string)
    requires Sound(v.client)
  {
    var a := AttemptFor(v.client, form);
    && SameForms(v.client.attempts, w.client.attempts)
    && ((w.client.pending == v.client.pending && |w.client.attempts| == |v.client.attempts|
         && w.abandoned == v.abandoned)
        || (w.client.pending == Some(a) && a < |w.client.attempts| && w.client.attempts[a].fingerprint == form
            && |w.client.attempts| == |v.client.attempts| + (if Resumable(v.client, form) then 0 else 1)
            && w.abandoned == v.abandoned + (if v.client.pending.Some? && !Resumable(v.client, form) then 1 else 0)))
  }

  lemma ClickOnOneAttempt(preview: bool, v: World, w: World, key: Key, form: string)
    requires Sound(v.client) && Exclusive(w.client) && OnOneAttempt(v, w, form)
    ensures var c := Clicked(w.client, preview, form, key).client;
            var abandoned := w.abandoned + if Abandons(w, preview, form) then 1 else 0;
            OnOneAttempt(v, w.(client := c, abandoned := abandoned), form)
  {
  }

  lemma StepOnOneAttempt(kind: Request -> Kind, preview: bool, v: World, w: World, s: Step, form: string)
    requires Sound(v.client) && Exclusive(w.client) && Enabled(w, s) && OnOneAttempt(v, w, form)
    requires !s.Receive? && (s.Click? ==> s.fingerprint == form)
    ensures OnOneAttempt(v, After(kind, preview, w, s), form)
  {
    if s.Click? {
      ClickOnOneAttempt(preview, v, w, s.key, form);
    }
  }

  lemma StepOf(kind: Request -> Kind, preview: bool, ws: seq<World>, steps: seq<Step>, k: nat)
    requires Run(kind, preview, ws, steps) && k < |steps|
    ensures Exclusive(ws[k].client) && Enabled(ws[k], steps[k]) && ws[k + 1] == After(kind, preview, ws[k], steps[k])
  {
    RunSafe(kind, preview, ws, steps, k);
    assert HappensAt(kind, preview, ws, steps, k);
  }

  lemma FormOf(steps: seq<Step>, m: nat, n: nat, form: string)
    requires m < n <= |steps| && OnlyForm(steps, m, n, form)
    ensures OnlyForm(steps, m, n - 1, form)
    ensures !steps[n - 1].Receive? && (steps[n - 1].Click? ==> steps[n - 1].fingerprint == form)
  {
  }

  lemma {:induction false} WindowOnOneAttempt(kind: Request -> Kind, preview: bool, ws: seq<World>, steps: seq<Step>,
                                              m: nat, n: nat, form: string)
    requires Run(kind, preview, ws, steps) && m <= n < |ws| && OnlyForm(steps, m, n, form)
    ensures Sound(ws[m].client) && OnOneAttempt(ws[m], ws[n], form)
  {
    if m == n {
      RunSafe(kind, preview, ws, steps, m);
    } else {
      FormOf(steps, m, n, form);
      WindowOnOneAttempt(kind, preview, ws, steps, m, n - 1, form);
      StepOf(kind, preview, ws, steps, n - 1);
      StepOnOneAttempt(kind, preview, ws[m], ws[n - 1], steps[n - 1], form);
    }
  }

  /** The jobs stored for one attempt. */
  ghost function JobsOf(w: World, a: nat): set<nat>
    requires a < |w.client.attempts|
  {
    set j: nat | j < |w.jobs| && w.jobs[j].key == w.client.attempts[a].key
  }

  lemma AtMostOneJob(kind: Request -> Kind, preview: bool, w: World, a: nat)
    requires Safe(kind, preview, w) && a < |w.client.attempts|
    ensures |JobsOf(w, a)| <= 1
  {
    if JobsOf(w, a) != {} {
      var j :| j in JobsOf(w, a);
      forall i | i in JobsOf(w, a) ensures i == j {
        assert OwnedBy(w, i) && OwnedBy(w, j);
        OneJobPerAttempt(kind, preview, w, i, j);
      }
      assert JobsOf(w, a) == {j};
    }
  }

  /** Wherever a session stands, clicking one form again and again, through any failures and repeats, works
      on a single attempt and stores at most one job for it before its receipt. */
  lemma OneJobWhileClicking(kind: Request -> Kind, preview: bool, ws: seq<World>, steps: seq<Step>, m: nat, n: nat,
                            form: string, a: nat)
    requires Run(kind, preview, ws, steps) && m <= n < |ws| && OnlyForm(steps, m, n, form)
    requires Sound(ws[m].client) && a == AttemptFor(ws[m].client, form)
    ensures |ws[n].client.attempts| == |ws[m].client.attempts|
            || (|ws[n].client.attempts| == |ws[m].client.attempts| + 1 && a == |ws[m].client.attempts|)
    ensures ws[n].client.pending == ws[m].client.pending || ws[n].client.pending == Some(a)
    ensures ws[m].client.pending.None? || Resumable(ws[m].client, form) ==> ws[n].abandoned == ws[m].abandoned
    ensures a < |ws[n].client.attempts| ==> ws[n].client.attempts[a].fingerprint == form && |JobsOf(ws[n], a)| <= 1
  {
    WindowOnOneAttempt(kind, preview, ws, steps, m, n, form);
    RunSafe(kind, preview, ws, steps, n);
    if a < |ws[n].client.attempts| {
      AtMostOneJob(kind, preview, ws[n], a);
    }
  }

  /** At the receipt there is exactly one job for the attempt, the one that the receipt names. */
  lemma OneJobAtReceipt(kind: Request -> Kind, preview: bool, ws: seq<World>, steps: seq<Step>, m: nat, n: nat,
                        form: string, a: nat)
    requires Run(kind, preview, ws, steps) && m <= n < |steps| && OnlyForm(steps, m, n, form)
    requires Sound(ws[m].client) && a == AttemptFor(ws[m].client, form)
    requires steps[n].Receive?
    requires ws[m].client.pending.None? || Resumable(ws[m].client, form) || ws[n].client.pending == Some(a)
    ensures a < |ws[n + 1].client.attempts| && ws[n + 1].client.attempts[a].fingerprint == form
    ensures JobsOf(ws[n + 1], a) == {steps[n].job} && ws[n + 1].receipts == ws[n].receipts + [Receipt(a, steps[n].job)]
    ensures ws[n + 1].client.pending.None?
  {
    WindowOnOneAttempt(kind, preview, ws, steps, m, n, form);
    RunSafe(kind, preview, ws, steps, n);
    RunSafe(kind, preview, ws, steps, n + 1);
    assert HappensAt(kind, preview, ws, steps, n);
    var w, r := ws[n + 1], Receipt(a, steps[n].job);
    assert w.receipts[|w.receipts| - 1] == r && Closed(w.client, w.jobs, r);
    AtMostOneJob(kind, preview, w, a);
    OnlyMember(JobsOf(w, a), steps[n].job);
  }

  lemma OnlyMember(s: set<nat>, x: nat)
    requires x in s && |s| <= 1
    ensures s == {x}
  {
    assert |s - {x}| == 0;
  }

  ghost predicate Steady(resolved: set<Resolution>, resolve: Request -> Content) {
    forall r :: r in resolved ==> r.content == resolve(r.message.request)
  }

  /** The queue reports a conflict to this client only if one and the same request was resolved to two
      different commands. */
  lemma ConflictMeansDrift(kind: Request -> Kind, preview: bool, ws: seq<World>, steps: seq<Step>, n: nat,
                           resolve: Request -> Content)
    requires Run(kind, preview, ws, steps) && n < |ws|
    ensures forall m :: Reply(m, Conflict) in ws[n].replies ==> Disagree(ws[n].resolved, m)
    ensures Steady(ws[n].resolved, resolve) ==> forall r :: r in ws[n].replies ==> !r.answer.Conflict?
  {
    RunSafe(kind, preview, ws, steps, n);
    forall r | r in ws[n].replies && r.answer.Conflict? ensures Disagree(ws[n].resolved, r.message) {
      assert Truthful(kind, r, ws[n].jobs, ws[n].resolved);
    }
  }

  /** After a lost answer, clicking the same form puts the client back where it was and hands the very
      same message to the network again; any other form gets a key of its own. */
  lemma RetryRepeats(c: Client, form: string, key: Key)
    requires Exclusive(c) && c.calls != [] && c.calls[0].stage.Waiting?
    ensures var a := c.attempts[c.calls[0].attempt];
            var turn := Clicked(Failed(c, 0), false, form, key);
            form == a.fingerprint ==> turn == Turn(c, Some(a.Sends()))
    ensures var a := c.attempts[c.calls[0].attempt];
            var turn := Clicked(Failed(c, 0), false, form, key);
            form != a.fingerprint ==>
              turn.sent.None? && turn.client.attempts == c.attempts + [Attempt(form, key, Request("", Absent))]
  {
    assert Failed(c, 0).calls == [];
    assert c.calls == [Call(c.calls[0].attempt, Waiting)];
    assert API <= c.attempts[c.calls[0].attempt].request.path;
  }

  /** A repeated message finds its job. */
  lemma RepeatFindsJob(kind: Request -> Kind, preview: bool, w: World, m: Message, j: nat)
    requires Safe(kind, preview, w) && Reply(m, Accepted(j)) in w.replies
    ensures j in Own(w) && Submit(w.jobs, kind(m.request), m.key, w.jobs[j].content) == (w.jobs, Accepted(j))
  {
    assert Truthful(kind, Reply(m, Accepted(j)), w.jobs, w.resolved);
    var a := Sender(w, m);
    SubmitDeduplicates(w.jobs, kind(m.request), m.key, w.jobs[j].content);
  }

  // ----- a changed form starts over -----

  lemma JobsPathSendable()
    ensures Sendable(Request("/api/v1/jobs", Absent))
  {
    var s := "/api/v1/jobs";
    forall i, j | 0 <= i <= j <= |s| ensures s[i..j] != "://" {
      if j == i + 3 {
        assert s[i..j][0] == s[i];
      }
    }
  }

  lemma Extend(kind: Request -> Kind, ws: seq<World>, steps: seq<Step>, s: Step) returns (more: seq<World>)
    requires Run(kind, false, ws, steps)
    requires Sound(ws[|steps|].client) && Enabled(ws[|steps|], s)
    ensures Run(kind, false, more, steps + [s])
    ensures more[|steps| + 1] == After(kind, false, ws[|steps|], s)
  {
    more := ws + [After(kind, false, ws[|steps|], s)];
    var all := steps + [s];
    forall i | 0 <= i < |all| ensures HappensAt(kind, false, more, all, i) {
      if i < |steps| {
        assert HappensAt(kind, false, ws, steps, i);
      }
    }
  }

  /** A form is clicked, its request sent, and no answer comes. */
  lemma Unanswered(kind: Request -> Kind, r: Request) returns (ws: seq<World>, steps: seq<Step>)
    requires Sendable(r)
    ensures Run(kind, false, ws, steps)
    ensures var a := Attempt("A", "1", r);
            ws[|steps|] == World(Client(false, Some(0), [a], []), {"1"}, {a.Sends()}, [], {}, {}, [], 0)
  {
    ws, steps := [START], [];
    ws := Extend(kind, ws, steps, Click("A", "1"));
    steps := steps + [Click("A", "1")];
    ws := Extend(kind, ws, steps, Prepare(0, r));
    steps := steps + [Prepare(0, r)];
    assert ws[|steps|].client == Client(true, Some(0), [Attempt("A", "1", r)], [Call(0, Waiting)]);
    ws := Extend(kind, ws, steps, Fail(0));
    steps := steps + [Fail(0)];
  }

  /** Another form is clicked and its preparation fails. */
  lemma GivenUp(kind: Request -> Kind, r: Request) returns (ws: seq<World>, steps: seq<Step>)
    requires Sendable(r)
    ensures Run(kind, false, ws, steps)
    ensures var a, b := Attempt("A", "1", r), Attempt("B", "2", Request("", Absent));
            ws[|steps|] == World(Client(false, Some(1), [a, b], []), {"1", "2"}, {a.Sends()}, [], {}, {}, [], 1)
  {
    var a, b := Attempt("A", "1", r), Attempt("B", "2", Request("", Absent));
    ws, steps := Unanswered(kind, r);
    ws := Extend(kind, ws, steps, Click("B", "2"));
    steps := steps + [Click("B", "2")];
    assert ws[|steps|].client == Client(true, Some(1), [a, b], [Call(1, Preparing)]);
    ws := Extend(kind, ws, steps, Fail(0));
    steps := steps + [Fail(0)];
  }

  lemma AgainTurns(a: Attempt, b: Attempt, r: Request)
    requires Sendable(r) && b.fingerprint != "A"
    ensures var blank, c := Attempt("A", "3", Request("", Absent)), Attempt("A", "3", r);
            var clicked := Clicked(Client(false, Some(1), [a, b], []), false, "A", "3");
            && clicked == Turn(Client(true, Some(2), [a, b, blank], [Call(2, Preparing)]), None)
            && Prepared(clicked.client, 0, r)
               == Turn(Client(true, Some(2), [a, b, c], [Call(2, Waiting)]), Some(c.Sends()))
  {
  }

  /** The first form again, which is sent. */
  lemma ClickedAgain(kind: Request -> Kind, r: Request) returns (ws: seq<World>, steps: seq<Step>)
    requires Sendable(r)
    ensures Run(kind, false, ws, steps)
    ensures var a, b, c := Attempt("A", "1", r), Attempt("B", "2", Request("", Absent)), Attempt("A", "3", r);
            ws[|steps|] == World(Client(true, Some(2), [a, b, c], [Call(2, Waiting)]), {"1", "2", "3"},
                                 {a.Sends(), c.Sends()}, [], {}, {}, [], 2)
  {
    var a, b := Attempt("A", "1", r), Attempt("B", "2", Request("", Absent));
    ws, steps := GivenUp(kind, r);
    AgainTurns(a, b, r);
    ws := Extend(kind, ws, steps, Click("A", "3"));
    steps := steps + [Click("A", "3")];
    ws := Extend(kind, ws, steps, Prepare(0, r));
    steps := steps + [Prepare(0, r)];
  }

  /** The message of the first click is served, late. */
  lemma ServedLate(kind: Request -> Kind, r: Request, content: Content) returns (ws: seq<World>, steps: seq<Step>)
    requires Sendable(r)
    ensures Run(kind, false, ws, steps)
    ensures var a, b, c := Attempt("A", "1", r), Attempt("B", "2", Request("", Absent)), Attempt("A", "3", r);
            var w := ws[|steps|];
            && w.client == Client(true, Some(2), [a, b, c], [Call(2, Waiting)])
            && c.Sends() in w.sent && w.receipts == [] && w.jobs == [Job(kind(r), "1", content)]
  {
    ws, steps := ClickedAgain(kind, r);
    var s := Serve(Message("1", r), Some(content));
    ws := Extend(kind, ws, steps, s);
    steps := steps + [s];
  }

  lemma SecondJob(kind: Request -> Kind, r: Request, content: Content)
    ensures Submit([Job(kind(r), "1", content)], kind(r), "3", content).0
            == [Job(kind(r), "1", content), Job(kind(r), "3", content)]
  {
  }

  /** Without a receipt, form A, then form B, then form A again stores the same command twice: the second
      click on A is a new operation. */
  lemma ChangedFormStartsOver(kind: Request -> Kind, content: Content) returns (ws: seq<World>, steps: seq<Step>)
    ensures Run(kind, false, ws, steps)
    ensures var w := ws[|steps|];
            && w.receipts == [] && |w.client.attempts| == 3
            && w.client.attempts[0].fingerprint == w.client.attempts[2].fingerprint
            && w.client.attempts[0].request == w.client.attempts[2].request
            && |w.jobs| == 2 && 0 in JobsOf(w, 0) && 1 in JobsOf(w, 2)
            && w.jobs[0].content == w.jobs[1].content == content
  {
    JobsPathSendable();
    var r := Request("/api/v1/jobs", Absent);
    ws, steps := ServedLate(kind, r, content);
    var s := Serve(Message("3", r), Some(content));
    SecondJob(kind, r, content);
    ws := Extend(kind, ws, steps, s);
    steps := steps + [s];
  }
}
