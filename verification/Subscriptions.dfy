/** Resource subscriptions (PublishResourceUpdates and StreamSubscription,
    Source/McpServer.cpp:1157-1175, 1804-1908): publishers raise generation counters under a lock,
    and each stream compares them, under the same lock, with those it has already seen. */
module Subscriptions {

  type Generations = map<string, nat>

  function Generation(g: Generations, uri: string): nat {
    if uri in g then g[uri] else 0
  }

  // A watched resource: its generation when the stream began, and the one last seen.
  datatype Watch = Watch(uri: string, start: nat, seen: nat)

  datatype Notice = Notice(uri: string, generation: nat)

  // A stream: the notices it still has to send after its last look, and those it has sent.
  datatype Stream = Stream(watches: seq<Watch>, pending: seq<Notice>, sent: seq<Notice>, open: bool)

  datatype State = State(generations: Generations, streams: seq<Stream>)

  datatype Event =
    | Publish(uris: seq<string>)
    | Subscribe(uris: seq<string>)
    | Look(stream: nat)
    | Send(stream: nat, connected: bool)

  const START := State(map[], [])

  // ----- the steps

  // The first k uris, each counted up.
  function Published(g: Generations, uris: seq<string>, k: nat): Generations
    requires k <= |uris|
  {
    if k == 0 then g
    else
      var before := Published(g, uris, k - 1);
      if uris[k - 1] == "" then before else before[uris[k - 1] := Generation(before, uris[k - 1]) + 1]
  }

  function Watches(g: Generations, uris: seq<string>): (ws: seq<Watch>)
    ensures |ws| == |uris| && forall i :: 0 <= i < |ws| ==>
          ws[i] == Watch(uris[i], Generation(g, uris[i]), Generation(g, uris[i]))
  {
    seq(|uris|, i requires 0 <= i < |uris| => Watch(uris[i], Generation(g, uris[i]), Generation(g, uris[i])))
  }

  predicate DistinctUris(uris: seq<string>) {
    forall i, j :: 0 <= i < j < |uris| ==> uris[i] != uris[j]
  }

  function Looked(ws: seq<Watch>, g: Generations): (r: seq<Watch>)
    ensures |r| == |ws| && forall i :: 0 <= i < |r| ==> r[i] == ws[i].(seen := Generation(g, ws[i].uri))
  {
    seq(|ws|, i requires 0 <= i < |ws| => ws[i].(seen := Generation(g, ws[i].uri)))
  }

  // What the first k watches have to report.
  function Changed(ws: seq<Watch>, g: Generations, k: nat): seq<Notice>
    requires k <= |ws|
  {
    if k == 0 then []
    else
      var now := Generation(g, ws[k - 1].uri);
      Changed(ws, g, k - 1) + if now != ws[k - 1].seen then [Notice(ws[k - 1].uri, now)] else []
  }

  // A stream looks again once it has sent everything; one that is cut off does nothing more.
  function Next(s: State, e: Event): State {
    match e
    case Publish(uris) => s.(generations := Published(s.generations, uris, |uris|))
    case Subscribe(uris) =>
      if DistinctUris(uris) then s.(streams := s.streams + [Stream(Watches(s.generations, uris), [], [], true)]) else s
    case Look(i) =>
      if i >= |s.streams| || !s.streams[i].open || s.streams[i].pending != [] then s
      else
        var t := s.streams[i];
        s.(streams := s.streams[i := t.(watches := Looked(t.watches, s.generations),
                                        pending := Changed(t.watches, s.generations, |t.watches|))])
    case Send(i, connected) =>
      if i >= |s.streams| || !s.streams[i].open || s.streams[i].pending == [] then s
      else
        var t := s.streams[i];
        s.(streams := s.streams[i := if connected then t.(pending := t.pending[1..], sent := t.sent + [t.pending[0]])
                                     else t.(open := false)])
  }

  function Run(events: seq<Event>): State {
    if events == [] then START else Next(Run(events[..|events| - 1]), events[|events| - 1])
  }

  // ----- what a reader of the stream knows

  // The generation the last of some notices about a resource tells, or `start` if there is none.
  function LastTold(notices: seq<Notice>, uri: string, start: nat): nat {
    if notices == [] then start
    else if notices[|notices| - 1].uri == uri then notices[|notices| - 1].generation
    else LastTold(notices[..|notices| - 1], uri, start)
  }

  // Every notice tells something newer than the ones before it.
  predicate NewsOnly(notices: seq<Notice>, w: Watch) {
    forall k :: 0 <= k < |notices| && notices[k].uri == w.uri ==>
        LastTold(notices[..k], w.uri, w.start) < notices[k].generation
  }

  // What is sent or about to be sent is what was seen, and nothing newer was seen.
  predicate Tracks(t: Stream, w: Watch, g: Generations) {
    && LastTold(t.sent + t.pending, w.uri, w.start) == w.seen <= Generation(g, w.uri)
    && NewsOnly(t.sent + t.pending, w)
  }

  predicate Sound(t: Stream, g: Generations) {
    && (forall i, j :: 0 <= i < j < |t.watches| ==> t.watches[i].uri != t.watches[j].uri)
    && forall i :: 0 <= i < |t.watches| ==> Tracks(t, t.watches[i], g)
  }

  predicate AllSound(s: State) {
    forall i :: 0 <= i < |s.streams| ==> Sound(s.streams[i], s.generations)
  }

  lemma {:induction false} PublishedGrows(g: Generations, uris: seq<string>, k: nat, uri: string)
    requires k <= |uris|
    ensures Generation(Published(g, uris, k), uri) >= Generation(g, uri)
  {
    if k > 0 {
      PublishedGrows(g, uris, k - 1, uri);
    }
  }

  lemma {:induction false} NobodyTold(ws: seq<Watch>, g: Generations, k: nat, uri: string)
    requires k <= |ws| && forall i :: 0 <= i < k ==> ws[i].uri != uri
    ensures forall n :: n in Changed(ws, g, k) ==> n.uri != uri
  {
    if k > 0 {
      NobodyTold(ws, g, k - 1, uri);
    }
  }

  lemma {:induction false} OthersSayNothing(before: seq<Notice>, more: seq<Notice>, w: Watch)
    requires forall n :: n in more ==> n.uri != w.uri
    ensures LastTold(before + more, w.uri, w.start) == LastTold(before, w.uri, w.start)
    ensures NewsOnly(before, w) ==> NewsOnly(before + more, w)
  {
    if more == [] {
      assert before + more == before;
    } else {
      var rest := more[..|more| - 1];
      assert more[|more| - 1] in more;
      OthersSayNothing(before, rest, w);
      assert before + more == before + rest + [more[|more| - 1]];
      Appended(before + rest, more[|more| - 1], w);
    }
  }

  lemma {:induction false} Appended(notices: seq<Notice>, n: Notice, w: Watch)
    ensures LastTold(notices + [n], w.uri, w.start) == if n.uri == w.uri then n.generation
          else LastTold(notices, w.uri, w.start)
    ensures NewsOnly(notices, w) && (n.uri == w.uri ==> LastTold(notices, w.uri, w.start) < n.generation) ==>
          NewsOnly(notices + [n], w)
  {
    assert (notices + [n])[..|notices|] == notices;
    forall k | 0 <= k < |notices| ensures (notices + [n])[..k] == notices[..k] {}
  }

  // A look catches up: what is told for a watched resource is then its current generation.
  lemma {:induction false} LookCatchesUp(sent: seq<Notice>, ws: seq<Watch>, g: Generations, k: nat, i: nat)
    requires i < k <= |ws| && forall a, b :: 0 <= a < b < |ws| ==> ws[a].uri != ws[b].uri
    requires LastTold(sent, ws[i].uri, ws[i].start) == ws[i].seen <= Generation(g, ws[i].uri) && NewsOnly(sent, ws[i])
    ensures LastTold(sent + Changed(ws, g, k), ws[i].uri, ws[i].start) == Generation(g, ws[i].uri)
    ensures NewsOnly(sent + Changed(ws, g, k), ws[i])
  {
    hide NewsOnly, LastTold;
    var before := Changed(ws, g, k - 1);
    if i < k - 1 {
      LookCatchesUp(sent, ws, g, k - 1, i);
    } else {
      NobodyTold(ws, g, k - 1, ws[i].uri);
      OthersSayNothing(sent, before, ws[i]);
    }
    var n := Notice(ws[k - 1].uri, Generation(g, ws[k - 1].uri));
    if n.generation != ws[k - 1].seen {
      Appended(sent + before, n, ws[i]);
      assert sent + before + [n] == sent + Changed(ws, g, k);
    } else {
      assert Changed(ws, g, k) == before;
    }
  }

  lemma {:induction false} LookKeepsSound(t: Stream, g: Generations)
    requires Sound(t, g) && t.pending == []
    ensures Sound(t.(watches := Looked(t.watches, g), pending := Changed(t.watches, g, |t.watches|)), g)
  {
    hide LastTold, NewsOnly;
    var u := t.(watches := Looked(t.watches, g), pending := Changed(t.watches, g, |t.watches|));
    assert t.sent + t.pending == t.sent;
    forall i | 0 <= i < |u.watches| ensures Tracks(u, u.watches[i], g) {
      LookCatchesUp(t.sent, t.watches, g, |t.watches|, i);
      SameWatch(u.sent + u.pending, t.watches[i], u.watches[i]);
    }
  }

  lemma SameWatch(notices: seq<Notice>, w: Watch, v: Watch)
    requires v.uri == w.uri && v.start == w.start
    ensures NewsOnly(notices, w) ==> NewsOnly(notices, v)
  {
  }

  lemma {:induction false} NextKeepsSound(s: State, e: Event)
    requires AllSound(s)
    ensures AllSound(Next(s, e))
  {
    hide LastTold, NewsOnly, Sound;
    var r := Next(s, e);
    forall i | 0 <= i < |r.streams| ensures Sound(r.streams[i], r.generations) {
      match e
      case Publish(uris) => LaterStillSound(s.streams[i], s.generations, uris);
      case Subscribe(uris) => if i == |s.streams| { NewIsSound(s.generations, uris); }
      case Look(j) => if i == j && r.streams[i] != s.streams[i] { LookKeepsSound(s.streams[i], s.generations); }
      case Send(j, connected) => if i == j
          && r.streams[i] != s.streams[i] { SendKeepsSound(s.streams[i], r.streams[i], s.generations, connected); }
    }
  }

  lemma LaterStillSound(t: Stream, g: Generations, uris: seq<string>)
    requires Sound(t, g)
    ensures Sound(t, Published(g, uris, |uris|))
  {
    hide LastTold, NewsOnly;
    forall i | 0 <= i < |t.watches| ensures Tracks(t, t.watches[i], Published(g, uris, |uris|)) {
      PublishedGrows(g, uris, |uris|, t.watches[i].uri);
    }
  }

  lemma NewIsSound(g: Generations, uris: seq<string>)
    requires DistinctUris(uris)
    ensures Sound(Stream(Watches(g, uris), [], [], true), g)
  {
    var t := Stream(Watches(g, uris), [], [], true);
    assert t.sent + t.pending == [];
  }

  lemma SendKeepsSound(t: Stream, u: Stream, g: Generations, connected: bool)
    requires Sound(t, g) && t.pending != []
    requires u == if connected then t.(pending := t.pending[1..], sent := t.sent + [t.pending[0]])
          else t.(open := false)
    ensures Sound(u, g)
  {
    hide LastTold, NewsOnly;
    assert u.sent + u.pending == t.sent + t.pending;
  }

  // In every interleaving of publishers and streams.
  lemma {:induction false} EveryRunIsSound(events: seq<Event>)
    ensures AllSound(Run(events))
  {
    hide Next;
    if events != [] {
      EveryRunIsSound(events[..|events| - 1]);
      NextKeepsSound(Run(events[..|events| - 1]), events[|events| - 1]);
    }
  }

  // No update is lost: once a stream has looked and sent all it found, its reader has been told the
  // generation that every watched resource had at that look, unless it never changed; and a stream
  // with nothing left to find or send has told the current ones.
  lemma {:induction false} NothingIsLost(events: seq<Event>, i: nat, k: nat)
    requires i < |Run(events).streams| && k < |Run(events).streams[i].watches|
    ensures var t := Run(events).streams[i]; var w := t.watches[k];
            && w.start <= w.seen
            && (t.pending == [] ==> LastTold(t.sent, w.uri, w.start) == w.seen)
            && (t.pending == [] && Changed(t.watches, Run(events).generations, |t.watches|) == [] ==>
                  LastTold(t.sent, w.uri, w.start) == Generation(Run(events).generations, w.uri))
  {
    hide Run, LastTold, NewsOnly, Changed;
    EveryRunIsSound(events);
    var t, g := Run(events).streams[i], Run(events).generations;
    TellsMore(t.sent + t.pending, t.watches[k]);
    if t.pending == [] {
      assert t.sent + t.pending == t.sent;
      if Changed(t.watches, g, |t.watches|) == [] {
        NothingChanged(t.watches, g, |t.watches|, k);
      }
    }
  }

  lemma {:induction false} TellsMore(notices: seq<Notice>, w: Watch)
    requires NewsOnly(notices, w)
    ensures LastTold(notices, w.uri, w.start) >= w.start
  {
    if notices != [] {
      var n := |notices| - 1;
      assert forall k :: 0 <= k < n ==> notices[..n][..k] == notices[..k];
      TellsMore(notices[..n], w);
    }
  }

  lemma {:induction false} NothingChanged(ws: seq<Watch>, g: Generations, k: nat, i: nat)
    requires i < k <= |ws| && Changed(ws, g, k) == []
    ensures Generation(g, ws[i].uri) == ws[i].seen
  {
    if i < k - 1 {
      NothingChanged(ws, g, k - 1, i);
    }
  }

  // A subscription to different resources opens a stream that has seen them as they are now.
  lemma {:induction false} SubscribeOpens(s: State, uris: seq<string>, k: nat)
    requires k < |uris| && forall i, j :: 0 <= i < j < |uris| ==> uris[i] != uris[j]
    ensures var r, n := Next(s, Subscribe(uris)), |s.streams|;
            && r.generations == s.generations && |r.streams| == n + 1 && r.streams[..n] == s.streams
            && r.streams[n].open && r.streams[n].pending == r.streams[n].sent == [] && |r.streams[n].watches| == |uris|
            && r.streams[n].watches[k].uri == uris[k]
            && r.streams[n].watches[k].start == r.streams[n].watches[k].seen
            && r.streams[n].watches[k].start == if uris[k] in s.generations then s.generations[uris[k]] else 0
  {
  }

  // ----- a connected stream gets there

  function Sends(i: nat, n: nat): seq<Event> {
    if n == 0 then [] else [Send(i, true)] + Sends(i, n - 1)
  }

  // A stream whose reader stays connected sends everything it found.
  lemma {:induction false} SendsEverything(events: seq<Event>, i: nat)
    requires i < |Run(events).streams| && Run(events).streams[i].open
    ensures var s, t := Run(events), Run(events).streams[i];
            Run(events + Sends(i, |t.pending|))
              == s.(streams := s.streams[i := t.(pending := [], sent := t.sent + t.pending)])
    decreases |Run(events).streams[i].pending|
  {
    hide Run, Next;
    var s, t := Run(events), Run(events).streams[i];
    if t.pending == [] {
      assert events + [] == events && t.sent + [] == t.sent;
    } else {
      var more := events + [Send(i, true)];
      RunOneMore(events, Send(i, true));
      OneSend(s, i);
      SendsEverything(more, i);
      assert events + Sends(i, |t.pending|) == more + Sends(i, |t.pending| - 1);
      assert t.sent + [t.pending[0]] + t.pending[1..] == t.sent + t.pending;
    }
  }

  lemma RunOneMore(events: seq<Event>, e: Event)
    ensures Run(events + [e]) == Next(Run(events), e)
  {
    assert (events + [e])[..|events|] == events;
  }

  lemma OneSend(s: State, i: nat)
    requires i < |s.streams| && s.streams[i].open && s.streams[i].pending != []
    ensures var t := s.streams[i];
            Next(s, Send(i, true)) ==
              s.(streams := s.streams[i := t.(pending := t.pending[1..], sent := t.sent + [t.pending[0]])])
  {
  }

  // So after one look and these, its reader knows the current generation of everything watched.
  lemma {:induction false} LookTellsAll(events: seq<Event>, i: nat, k: nat)
    requires i < |Run(events).streams| && k < |Run(events).streams[i].watches|
    requires Run(events).streams[i].open && Run(events).streams[i].pending == []
    ensures var looked := events + [Look(i)];
            && i < |Run(looked).streams|
            && var all := looked + Sends(i, |Run(looked).streams[i].pending|);
               && i < |Run(all).streams| && k < |Run(all).streams[i].watches|
               && var w := Run(events).streams[i].watches[k];
                  LastTold(Run(all).streams[i].sent, w.uri, w.start) == Generation(Run(events).generations, w.uri)
  {
    hide LastTold, NewsOnly, Sends, Changed;
    var looked, t, g := events + [Look(i)], Run(events).streams[i], Run(events).generations;
    RunOneMore(events, Look(i));
    EveryRunIsSound(events);
    assert t.sent + t.pending == t.sent;
    LookCatchesUp(t.sent, t.watches, g, |t.watches|, k);
    SendsEverything(looked, i);
  }

  // The mentions of a resource among the first k.
  function Mentions(uris: seq<string>, k: nat, uri: string): set<nat>
    requires k <= |uris|
  {
    set i: nat | i < k && uris[i] == uri
  }

  // A publication raises each named resource by the number of its mentions, and no other.
  lemma {:induction false} PublishedCounts(g: Generations, uris: seq<string>, k: nat, uri: string)
    requires k <= |uris|
    ensures Generation(Published(g, uris, k), uri)
         == Generation(g, uri) + if uri == "" then 0 else |Mentions(uris, k, uri)|
    ensures Generation(map[], uri) == 0
  {
    if k == 0 {
      assert Mentions(uris, 0, uri) == {};
    } else {
      PublishedCounts(g, uris, k - 1, uri);
      var before := Mentions(uris, k - 1, uri);
      assert Mentions(uris, k, uri) == if uris[k - 1] == uri then before + {k - 1} else before;
    }
  }
}
