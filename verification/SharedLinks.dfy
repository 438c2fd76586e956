/**
 * Any number of share pages, the server and its store, over every run: pages
 * are loaded, hashes change, buttons are clicked, requests are handled or lost,
 * while other clients save, load and let time pass.
 */
module SharedLinks {
  import opened Wrappers
  import opened Delivery
  import opened KeyStore
  import opened Handlers
  import opened Base64Url
  import opened DataStream
  import opened Link
  import opened SharePage

  /** How a request fares: lost, refused by a limiter or an error page, or handled, with its reply arriving or not. */
  datatype Trip =
    | NeverArrived
    | Refused(code: nat)
    | Handled(net: Network, decodes: bool, arrives: bool)

  /** A reply that carries the key names the delivery it came from. */
  datatype Flight =
    | Nothing
    | Requested
    | Replied(reply: Reply, from: Option<nat>)

  /** `got` is the delivery whose key the page received; `fetches` counts its requests. */
  datatype Tab = Tab(page: Page, flight: Flight, got: Option<nat>, fetches: nat)

  datatype System = System(w: World, tabs: seq<Tab>, trace: seq<Action>)

  datatype Move =
    | Load(shareID: string, hash: string)
    | ChangeHash(t: nat, hash: string)
    | Click(t: nat)
    | Serve(t: nat, trip: Trip)
    | Receive(t: nat)
    | Decrypt(t: nat, decrypts: bool)
    | Elsewhere(a: Action)

  function Boot(now: Time): System {
    System(Start(now), [], [])
  }

  predicate Enabled(s: System, m: Move) {
    match m
    case Load(_, _) => true
    case ChangeHash(t, _) => t < |s.tabs|
    case Click(t) => t < |s.tabs|
    case Serve(t, trip) =>
      && t < |s.tabs| && s.tabs[t].flight.Requested?
      && (trip.Refused? ==> trip.code != 404 && !(200 <= trip.code < 300))
    case Receive(t) => t < |s.tabs| && s.tabs[t].flight.Replied?
    case Decrypt(t, _) => t < |s.tabs| && s.tabs[t].page.suspended.Decrypting?
    case Elsewhere(_) => true
  }

  function StatusOf(reply: FetchReply): Reply {
    match reply
    case Found(privPem) => Status(200, privPem)
    case NotFound => Status(404, "404 page not found")
    case FetchError => Status(500, "internal error")
  }

  function OnTab(s: System, t: nat, tab: Tab): System
    requires t < |s.tabs|
  {
    s.(tabs := s.tabs[t := tab])
  }

  function OnClick(tab: Tab): Tab {
    var page := Clicked(tab.page);
    if page == tab.page then tab
    else tab.(page := page, flight := Requested, fetches := tab.fetches + 1)
  }

  /** `FetchKey` on the server: the store loses the record when GETDEL reaches it. */
  function OnServer(s: System, t: nat, net: Network, decodes: bool, arrives: bool): System
    requires t < |s.tabs|
  {
    var tab := s.tabs[t];
    var outcome := FetchOutcome(s.w.store, tab.page.shareID, s.w.now, net, decodes);
    var a := Take(tab.page.shareID, net.Answered? && decodes);
    var (w, trace) := if net.RequestLost? then (s.w, s.trace) else (Step(s.w, a), s.trace + [a]);
    var flight :=
      if !arrives then Replied(NoResponse, None)
      else Replied(StatusOf(outcome), if outcome.Found? then Some(|s.w.log|) else None);
    System(w, s.tabs[t := tab.(flight := flight)], trace)
  }

  function Apply(s: System, m: Move): System {
    if !Enabled(s, m) then s
    else
      match m
      case Load(shareID, hash) => s.(tabs := s.tabs + [Tab(Loaded(shareID, hash), Nothing, None, 0)])
      case ChangeHash(t, hash) => OnTab(s, t, s.tabs[t].(page := HashChanged(s.tabs[t].page, hash)))
      case Click(t) => OnTab(s, t, OnClick(s.tabs[t]))
      case Serve(t, NeverArrived) => OnTab(s, t, s.tabs[t].(flight := Replied(NoResponse, None)))
      case Serve(t, Refused(code)) => OnTab(s, t, s.tabs[t].(flight := Replied(Status(code, ""), None)))
      case Serve(t, Handled(net, decodes, arrives)) => OnServer(s, t, net, decodes, arrives)
      case Receive(t) =>
        var tab := s.tabs[t];
        OnTab(s, t, tab.(page := AfterFetch(tab.page, tab.flight.reply), flight := Nothing, got := tab.flight.from))
      case Decrypt(t, decrypts) => OnTab(s, t, s.tabs[t].(page := AfterDecrypt(s.tabs[t].page, decrypts)))
      case Elsewhere(a) => System(Step(s.w, a), s.tabs, s.trace + [a])
  }

  function Continue(s: System, moves: seq<Move>): System {
    if moves == [] then s
    else Apply(Continue(s, moves[..|moves| - 1]), moves[|moves| - 1])
  }

  function Run(now: Time, moves: seq<Move>): System {
    Continue(Boot(now), moves)
  }

  // The invariant.

  /** Delivery k handed out this key for this id. */
  predicate IsDelivery(log: seq<Event>, k: nat, id: Id, privPem: string) {
    k < |log| && log[k].Delivered? && log[k].id == id && log[k].rec.privPem == privPem
  }

  /** The delivery whose key is with the page or on its way to it. */
  function Held(tab: Tab): Option<nat> {
    if tab.got.Some? then tab.got
    else if tab.flight.Replied? then tab.flight.from
    else None
  }

  predicate TabOk(log: seq<Event>, tab: Tab) {
    && Consistent(tab.page)
    && (tab.flight.Nothing? <==> !tab.page.suspended.Fetching?)
    && (tab.flight.Replied? ==>
          match FetchKey(tab.flight.reply)
          case Text(privPem) =>
            tab.flight.from.Some? && IsDelivery(log, tab.flight.from.value, tab.page.shareID, privPem)
          case _ => tab.flight.from.None?)
    && (tab.got.Some? ==>
          && tab.page.state in {Working, Open, Spent} && !tab.page.suspended.Fetching?
          && tab.got.value < |log| && log[tab.got.value].Delivered? && log[tab.got.value].id == tab.page.shareID)
    && (tab.page.suspended.Decrypting? ==>
          tab.got.Some? && IsDelivery(log, tab.got.value, tab.page.shareID, tab.page.suspended.privPem))
    && (tab.page.state == Open ==> tab.got.Some?)
  }

  /** No delivery is held twice. */
  predicate Exclusive(tabs: seq<Tab>) {
    forall t, u | 0 <= t < u < |tabs| && Held(tabs[t]).Some? && Held(tabs[u]).Some? :: Held(tabs[t]) != Held(tabs[u])
  }

  ghost predicate Coherent(now: Time, s: System) {
    && s.w == After(Start(now), s.trace)
    && (forall t | 0 <= t < |s.tabs| :: TabOk(s.w.log, s.tabs[t]))
    && Exclusive(s.tabs)
  }

  lemma HeldIsPast(log: seq<Event>, tab: Tab)
    requires TabOk(log, tab)
    ensures Held(tab).Some? ==> Held(tab).value < |log|
  {
  }

  /** The history only grows. */
  lemma TabOkGrows(log: seq<Event>, more: seq<Event>, tab: Tab)
    requires TabOk(log, tab)
    ensures TabOk(log + more, tab)
  {
    hide Consistent;
  }

  lemma StepGrowsLog(w: World, a: Action) returns (more: seq<Event>)
    ensures Step(w, a).log == w.log + more
  {
    more := Step(w, a).log[|w.log|..];
  }

  lemma TraceAppend(w: World, trace: seq<Action>, a: Action)
    ensures After(w, trace + [a]) == Step(After(w, trace), a)
  {
    assert (trace + [a])[..|trace|] == trace;
  }

  lemma ReplaceCoherent(now: Time, s: System, s': System, t: nat)
    requires Coherent(now, s) && t < |s.tabs|
    requires s'.w == After(Start(now), s'.trace) && s.w.log <= s'.w.log
    requires |s'.tabs| == |s.tabs| && s'.tabs == s.tabs[t := s'.tabs[t]]
    requires TabOk(s'.w.log, s'.tabs[t])
    requires Held(s'.tabs[t]).None? || Held(s'.tabs[t]) == Held(s.tabs[t]) || Held(s'.tabs[t]).value >= |s.w.log|
    ensures Coherent(now, s')
  {
    hide TabOk, Held;
    var more := s'.w.log[|s.w.log|..];
    assert s'.w.log == s.w.log + more;
    forall u | 0 <= u < |s'.tabs| ensures TabOk(s'.w.log, s'.tabs[u]) {
      if u != t {
        TabOkGrows(s.w.log, more, s.tabs[u]);
      }
    }
    forall u | 0 <= u < |s.tabs| ensures Held(s.tabs[u]).Some? ==> Held(s.tabs[u]).value < |s.w.log| {
      HeldIsPast(s.w.log, s.tabs[u]);
    }
  }

  lemma PageMoveOk(log: seq<Event>, tab: Tab, page: Page)
    requires TabOk(log, tab)
    requires Consistent(page) && page.shareID == tab.page.shareID && page.suspended == tab.page.suspended
    requires page.state == tab.page.state || (tab.page.state in {Ready, Invalid} && page.state in {Ready, Invalid})
    ensures TabOk(log, tab.(page := page))
  {
    hide Consistent;
  }

  lemma ClickOk(log: seq<Event>, tab: Tab)
    requires TabOk(log, tab)
    ensures TabOk(log, OnClick(tab)) && (Held(OnClick(tab)).None? || OnClick(tab) == tab)
    ensures OnClick(tab).fetches > tab.fetches ==>
      tab.page.state == Ready && tab.page.fragment.Some? && tab.flight.Nothing? && tab.got.None?
  {
  }

  lemma ReceiveOk(log: seq<Event>, tab: Tab)
    requires TabOk(log, tab) && tab.flight.Replied?
    ensures var next := tab.(page := AfterFetch(tab.page, tab.flight.reply), flight := Nothing, got := tab.flight.from);
            TabOk(log, next) && Held(next) == Held(tab)
  {
  }

  lemma DecryptOk(log: seq<Event>, tab: Tab, decrypts: bool)
    requires TabOk(log, tab) && tab.page.suspended.Decrypting?
    ensures TabOk(log, tab.(page := AfterDecrypt(tab.page, decrypts)))
  {
  }

  lemma ServeKeepsCoherent(now: Time, s: System, t: nat, net: Network, decodes: bool, arrives: bool)
    requires Coherent(now, s) && t < |s.tabs| && s.tabs[t].flight.Requested?
    ensures Coherent(now, OnServer(s, t, net, decodes, arrives))
  {
    hide TabOk, Held, Exclusive, OnServer, Step, After;
    var s' := OnServer(s, t, net, decodes, arrives);
    ServedTrace(now, s, t, net, decodes, arrives);
    ServedOk(s, t, net, decodes, arrives);
    ReplaceCoherent(now, s, s', t);
  }

  lemma ServedTrace(now: Time, s: System, t: nat, net: Network, decodes: bool, arrives: bool)
    requires s.w == After(Start(now), s.trace) && t < |s.tabs|
    ensures var s' := OnServer(s, t, net, decodes, arrives);
            && s'.w == After(Start(now), s'.trace) && s.w.log <= s'.w.log
            && |s'.tabs| == |s.tabs| && s'.tabs == s.tabs[t := s'.tabs[t]]
  {
    hide Step, After, FetchOutcome, StatusOf;
    var a := Take(s.tabs[t].page.shareID, net.Answered? && decodes);
    TraceAppend(Start(now), s.trace, a);
    var more := StepGrowsLog(s.w, a);
  }

  /** A reply with the key comes from the delivery just logged. */
  lemma ServedOk(s: System, t: nat, net: Network, decodes: bool, arrives: bool)
    requires t < |s.tabs| && s.tabs[t].flight.Requested? && TabOk(s.w.log, s.tabs[t])
    ensures var s' := OnServer(s, t, net, decodes, arrives);
            && t < |s'.tabs| && TabOk(s'.w.log, s'.tabs[t])
            && (Held(s'.tabs[t]).None? || Held(s'.tabs[t]).value >= |s.w.log|)
  {
    hide Consistent;
    var id := s.tabs[t].page.shareID;
    var w' := Step(s.w, Take(id, net.Answered? && decodes));
    if FetchOutcome(s.w.store, id, s.w.now, net, decodes).Found? {
      assert w'.log == s.w.log + [Delivered(id, s.w.now, s.w.store[id].rec)];
    }
  }

  lemma ApplyKeepsCoherent(now: Time, s: System, m: Move)
    requires Coherent(now, s)
    ensures Coherent(now, Apply(s, m))
  {
    hide TabOk, Held, Exclusive, Consistent, Clicked, HashChanged, AfterFetch, AfterDecrypt, Loaded, Step, OnServer, OnClick, After;
    if Enabled(s, m) {
      var s' := Apply(s, m);
      match m
      case Load(shareID, hash) =>
        LoadKeepsCoherent(now, s, shareID, hash);
      case ChangeHash(t, hash) =>
        HashKeepsTab(s.w.log, s.tabs[t], hash);
        ReplaceCoherent(now, s, s', t);
      case Click(t) =>
        ClickOk(s.w.log, s.tabs[t]);
        ReplaceCoherent(now, s, s', t);
      case Serve(t, NeverArrived) =>
        FailedOk(s.w.log, s.tabs[t], NoResponse);
        ReplaceCoherent(now, s, s', t);
      case Serve(t, Refused(code)) =>
        FailedOk(s.w.log, s.tabs[t], Status(code, ""));
        ReplaceCoherent(now, s, s', t);
      case Serve(t, Handled(net, decodes, arrives)) =>
        ServeKeepsCoherent(now, s, t, net, decodes, arrives);
      case Receive(t) =>
        ReceiveOk(s.w.log, s.tabs[t]);
        ReplaceCoherent(now, s, s', t);
      case Decrypt(t, decrypts) =>
        DecryptOk(s.w.log, s.tabs[t], decrypts);
        DecryptHolds(s.tabs[t], decrypts);
        ReplaceCoherent(now, s, s', t);
      case Elsewhere(a) =>
        TraceAppend(Start(now), s.trace, a);
        var more := StepGrowsLog(s.w, a);
        forall t | 0 <= t < |s.tabs| ensures TabOk(s'.w.log, s.tabs[t]) {
          TabOkGrows(s.w.log, more, s.tabs[t]);
        }
    }
  }

  lemma DecryptHolds(tab: Tab, decrypts: bool)
    ensures Held(tab.(page := AfterDecrypt(tab.page, decrypts))) == Held(tab)
  {
  }

  lemma HashKeepsTab(log: seq<Event>, tab: Tab, hash: string)
    requires TabOk(log, tab)
    ensures var next := tab.(page := HashChanged(tab.page, hash));
            TabOk(log, next) && Held(next) == Held(tab)
  {
    HandlersKeepConsistent(tab.page, hash, NoResponse, false);
    PageMoveOk(log, tab, HashChanged(tab.page, hash));
  }

  lemma FailedOk(log: seq<Event>, tab: Tab, reply: Reply)
    requires TabOk(log, tab) && tab.flight.Requested? && FetchKey(reply).Thrown?
    ensures var next := tab.(flight := Replied(reply, None));
            TabOk(log, next) && Held(next).None?
  {
  }

  lemma LoadKeepsCoherent(now: Time, s: System, shareID: string, hash: string)
    requires Coherent(now, s)
    ensures Coherent(now, Apply(s, Load(shareID, hash)))
  {
    hide Loaded;
    var tab := Tab(Loaded(shareID, hash), Nothing, None, 0);
    LoadedShape(shareID, hash);
    assert TabOk(s.w.log, tab) && Held(tab).None?;
  }

  lemma LoadedShape(shareID: string, hash: string)
    ensures var p := Loaded(shareID, hash);
            Consistent(p) && p.shareID == shareID && p.suspended == Idle && p.state in {Ready, Invalid}
  {
    HandlersKeepConsistent(Loaded(shareID, hash), hash, NoResponse, false);
  }

  lemma {:induction false} RunIsCoherent(now: Time, moves: seq<Move>)
    ensures Coherent(now, Run(now, moves))
  {
    hide Apply, Coherent;
    if moves == [] {
      BootIsCoherent(now);
    } else {
      var front := moves[..|moves| - 1];
      RunIsCoherent(now, front);
      ApplyKeepsCoherent(now, Run(now, front), moves[|moves| - 1]);
    }
  }

  lemma BootIsCoherent(now: Time)
    ensures Coherent(now, Boot(now))
  {
  }

  // What the runs guarantee.

  /** In every run a page is invalid exactly when it has no fragment, and waits for a reply exactly when one request of it is under way. */
  lemma PagesAreConsistent(now: Time, moves: seq<Move>, t: nat)
    requires t < |Run(now, moves).tabs|
    ensures var tab := Run(now, moves).tabs[t];
            && (tab.page.state == Invalid <==> tab.page.fragment == None)
            && (tab.flight.Nothing? <==> !tab.page.suspended.Fetching?)
            && (!tab.flight.Nothing? ==> tab.page.state == Working)
  {
    hide Run;
    RunIsCoherent(now, moves);
    assert TabOk(Run(now, moves).w.log, Run(now, moves).tabs[t]);
  }

  /** In every run a request leaves a page only on a click while it is ready and its link is well formed. */
  lemma OnlyReadyPagesFetch(now: Time, moves: seq<Move>, m: Move, t: nat)
    requires t < |Run(now, moves).tabs|
    ensures var s := Run(now, moves);
            t < |Apply(s, m).tabs|
            && (Apply(s, m).tabs[t].fetches != s.tabs[t].fetches ==>
                  && m == Click(t) && Apply(s, m).tabs[t].fetches == s.tabs[t].fetches + 1
                  && s.tabs[t].page.state == Ready && s.tabs[t].page.fragment.Some? && s.tabs[t].flight.Nothing?)
  {
    hide Run;
    RunIsCoherent(now, moves);
    var s := Run(now, moves);
    ClickOk(s.w.log, s.tabs[t]);
  }

  /** In every run a click on a ready page with an id sends one request and disables the button; any other click does nothing. */
  lemma ClickSends(now: Time, moves: seq<Move>, t: nat)
    requires t < |Run(now, moves).tabs|
    ensures var s := Run(now, moves);
            var tab := s.tabs[t];
            Apply(s, Click(t)) ==
              if tab.page.state != Ready || tab.page.shareID == "" then s
              else s.(tabs := s.tabs[t := Tab(tab.page.(state := Working, buttonDisabled := true, suspended := Fetching),
                                              Requested, tab.got, tab.fetches + 1)])
  {
    hide Run;
    RunIsCoherent(now, moves);
    assert TabOk(Run(now, moves).w.log, Run(now, moves).tabs[t]);
  }

  predicate Finished(p: Page) {
    p.state == Open || p.state == Spent
  }

  lemma FinishedStep(now: Time, s: System, m: Move, t: nat)
    requires Coherent(now, s) && t < |s.tabs| && Finished(s.tabs[t].page)
    ensures t < |Apply(s, m).tabs|
    ensures Apply(s, m).tabs[t].page.state == s.tabs[t].page.state
    ensures Apply(s, m).tabs[t].fetches == s.tabs[t].fetches && Apply(s, m).tabs[t].got == s.tabs[t].got
  {
    hide Exclusive, After, Step;
    assert TabOk(s.w.log, s.tabs[t]);
  }

  /** An open or spent page stays so and never fetches again, whatever happens. */
  lemma {:induction false} FinishedForever(now: Time, moves: seq<Move>, more: seq<Move>, t: nat)
    requires t < |Run(now, moves).tabs| && Finished(Run(now, moves).tabs[t].page)
    ensures var before, later := Run(now, moves), Run(now, moves + more);
            && t < |later.tabs|
            && later.tabs[t].page.state == before.tabs[t].page.state
            && later.tabs[t].fetches == before.tabs[t].fetches
            && later.tabs[t].got == before.tabs[t].got
  {
    hide Apply, Coherent;
    if more == [] {
      assert moves + more == moves;
    } else {
      var front, m := more[..|more| - 1], more[|more| - 1];
      FinishedForever(now, moves, front, t);
      RunIsCoherent(now, moves + front);
      FinishedStep(now, Run(now, moves + front), m, t);
      assert (moves + more)[..|moves + more| - 1] == moves + front;
    }
  }

  /** Every open page answers a write of its own: no two of them were opened by the same saved record. */
  lemma OneOpenPagePerRecord(now: Time, moves: seq<Move>, t: nat, u: nat)
    requires t < |Run(now, moves).tabs| && u < |Run(now, moves).tabs| && t != u
    requires Run(now, moves).tabs[t].page.state == Open && Run(now, moves).tabs[u].page.state == Open
    ensures var s := Run(now, moves);
            var i, j := s.tabs[t].got, s.tabs[u].got;
            && i.Some? && j.Some? && i.value < |s.w.log| && j.value < |s.w.log|
            && 0 <= WriteOf(s.w.log, i.value) && 0 <= WriteOf(s.w.log, j.value)
            && s.w.log[WriteOf(s.w.log, i.value)].Wrote? && s.w.log[WriteOf(s.w.log, j.value)].Wrote?
            && s.w.log[WriteOf(s.w.log, i.value)].id == s.tabs[t].page.shareID
            && s.w.log[WriteOf(s.w.log, j.value)].id == s.tabs[u].page.shareID
            && WriteOf(s.w.log, i.value) != WriteOf(s.w.log, j.value)
  {
    hide Run, Consistent, After, Good;
    var s := Run(now, moves);
    RunIsCoherent(now, moves);
    assert TabOk(s.w.log, s.tabs[t]) && TabOk(s.w.log, s.tabs[u]);
    assert Held(s.tabs[t]) == s.tabs[t].got && Held(s.tabs[u]) == s.tabs[u].got;
    assert s.tabs[t].got != s.tabs[u].got by {
      if t < u {
        assert Held(s.tabs[t]) != Held(s.tabs[u]);
      } else {
        assert Held(s.tabs[u]) != Held(s.tabs[t]);
      }
    }
    OneTimeDelivery(now, s.trace, s.tabs[t].page.shareID);
    ServedAtMostOnce(s.w.log, s.tabs[t].got.value, s.tabs[u].got.value);
    ServedAtMostOnce(s.w.log, s.tabs[u].got.value, s.tabs[t].got.value);
  }

  lemma {:induction false} WritesCount(log: seq<Event>, n: nat, id: Id, i: nat, j: nat)
    requires i < j < |log| && n <= |log|
    requires log[i].Wrote? && log[i].id == id && log[j].Wrote? && log[j].id == id
    ensures i < n ==> Writes(log, n, id) >= 1
    ensures j < n ==> Writes(log, n, id) >= 2
  {
    if n > 0 {
      WritesCount(log, n - 1, id, i, j);
    }
  }

  /** An id written once is opened by at most one page, over every run of any pages. */
  lemma SingleRecordOpensOnce(now: Time, moves: seq<Move>, id: Id, t: nat, u: nat)
    requires var s := Run(now, moves);
             && Writes(s.w.log, |s.w.log|, id) <= 1
             && t < |s.tabs| && s.tabs[t].page.shareID == id && s.tabs[t].page.state == Open
             && u < |s.tabs| && s.tabs[u].page.shareID == id && s.tabs[u].page.state == Open
    ensures t == u
  {
    hide Run;
    if t != u {
      OneOpenPagePerRecord(now, moves, t, u);
      var s := Run(now, moves);
      var i: nat, j: nat := WriteOf(s.w.log, s.tabs[t].got.value), WriteOf(s.w.log, s.tabs[u].got.value);
      if i < j {
        WritesCount(s.w.log, |s.w.log|, id, i, j);
      } else {
        WritesCount(s.w.log, |s.w.log|, id, j, i);
      }
    }
  }

  // What becomes of one click.

  /** Only the address has changed. */
  predicate SameButHash(p: Page, q: Page) {
    q == p.(hash := q.hash)
  }

  /** A page that waits for its reply, or for the key to be tried. */
  predicate Waiting(tab: Tab) {
    && tab.page.state == Working && tab.page.buttonDisabled
    && (tab.flight.Replied? || tab.page.suspended.Decrypting?)
    && !tab.flight.Requested?
  }

  predicate LeavesAlone(tab: Tab, m: Move, t: nat) {
    if tab.flight.Replied? then m != Receive(t) else !(m.Decrypt? && m.t == t)
  }

  lemma WaitingStep(s: System, m: Move, t: nat)
    requires t < |s.tabs| && Waiting(s.tabs[t]) && LeavesAlone(s.tabs[t], m, t)
    requires s.tabs[t].flight.Replied? ==> !s.tabs[t].page.suspended.Decrypting?
    ensures t < |Apply(s, m).tabs|
    ensures SameButHash(s.tabs[t].page, Apply(s, m).tabs[t].page)
    ensures Apply(s, m).tabs[t] == s.tabs[t].(page := Apply(s, m).tabs[t].page)
  {
    hide Step;
  }

  /** Whatever else happens, a waiting page keeps waiting with the same reply and the same link. */
  lemma {:induction false} WaitingStays(s: System, moves: seq<Move>, t: nat)
    requires t < |s.tabs| && Waiting(s.tabs[t])
    requires s.tabs[t].flight.Replied? ==> !s.tabs[t].page.suspended.Decrypting?
    requires forall i | 0 <= i < |moves| :: LeavesAlone(s.tabs[t], moves[i], t)
    ensures t < |Continue(s, moves).tabs|
    ensures SameButHash(s.tabs[t].page, Continue(s, moves).tabs[t].page)
    ensures Continue(s, moves).tabs[t] == s.tabs[t].(page := Continue(s, moves).tabs[t].page)
  {
    hide Apply;
    if moves != [] {
      var front, m := moves[..|moves| - 1], moves[|moves| - 1];
      WaitingStays(s, front, t);
      WaitingStep(Continue(s, front), m, t);
    }
  }

  /** The reply of a handled request, seen from the page. */
  function ReplyOf(s: System, t: nat, trip: Trip): Reply
    requires t < |s.tabs|
  {
    match trip
    case NeverArrived => NoResponse
    case Refused(code) => Status(code, "")
    case Handled(net, decodes, arrives) =>
      if !arrives then NoResponse
      else StatusOf(FetchOutcome(s.w.store, s.tabs[t].page.shareID, s.w.now, net, decodes))
  }

  lemma ServedTab(s: System, t: nat, trip: Trip)
    requires Enabled(s, Serve(t, trip))
    ensures var sent := Apply(s, Serve(t, trip));
            && t < |sent.tabs| && sent.tabs[t].page == s.tabs[t].page
            && sent.tabs[t].flight.Replied? && sent.tabs[t].flight.reply == ReplyOf(s, t, trip)
            && sent.w == if trip.Handled? && !trip.net.RequestLost?
                         then Step(s.w, Take(s.tabs[t].page.shareID, trip.net.Answered? && trip.decodes)) else s.w
  {
    hide Step;
  }

  lemma ReceivedTab(s: System, t: nat)
    requires t < |s.tabs| && s.tabs[t].flight.Replied?
    ensures t < |Apply(s, Receive(t)).tabs|
    ensures Apply(s, Receive(t)).tabs[t].page == AfterFetch(s.tabs[t].page, s.tabs[t].flight.reply)
    ensures Apply(s, Receive(t)).tabs[t].flight.Nothing?
  {
  }

  lemma DecryptedTab(s: System, t: nat, decrypts: bool)
    requires t < |s.tabs| && s.tabs[t].page.suspended.Decrypting?
    ensures t < |Apply(s, Decrypt(t, decrypts)).tabs|
    ensures Apply(s, Decrypt(t, decrypts)).tabs[t].page.state == if decrypts then Open else Spent
  {
  }

  /** The request of a page at t goes through, its reply arrives, and the record is readable. */
  predicate Succeeds(trip: Trip) {
    trip == Handled(Answered, true, true)
  }

  predicate Answers(trip: Trip) {
    trip.Handled? && trip.net.Answered? && trip.arrives
  }

  /** The page when it has received the reply, whatever happened in between. */
  lemma ReplyOutcome(s: System, t: nat, trip: Trip, between: seq<Move>)
    requires Enabled(s, Serve(t, trip)) && Consistent(s.tabs[t].page) && s.tabs[t].page.suspended.Fetching?
    requires forall i | 0 <= i < |between| :: between[i] != Receive(t)
    ensures var id := s.tabs[t].page.shareID;
            var got := Apply(Continue(Apply(s, Serve(t, trip)), between), Receive(t));
            && t < |got.tabs| && got.tabs[t].flight.Nothing?
            && var page := got.tabs[t].page;
               if Answers(trip) && !Live(s.w.store, id, s.w.now) then page.state == Spent
               else if Succeeds(trip) then
                 page.state == Working && page.buttonDisabled
                 && page.suspended == Decrypting(s.w.store[id].rec.privPem) && page.fragment == s.tabs[t].page.fragment
               else page.state == Ready && page.fragment == s.tabs[t].page.fragment
  {
    hide Step, Apply, Continue;
    var sent := Apply(s, Serve(t, trip));
    ServedTab(s, t, trip);
    WaitingStays(sent, between, t);
    ReceivedTab(Continue(sent, between), t);
  }

  /** What the history says is stored for an id. */
  function PendingKey(log: seq<Event>, id: Id, now: Time): string
    requires Pending(log, id, now)
  {
    log[Last(log, |log|, id)].rec.privPem
  }

  lemma StoredKey(now: Time, trace: seq<Action>, id: Id)
    ensures var w := After(Start(now), trace);
            Pending(w.log, id, w.now) ==> id in w.store && w.store[id].rec.privPem == PendingKey(w.log, id, w.now)
  {
    hide Last, After;
    RunIsGood(now, trace);
    assert Faithful(After(Start(now), trace), id);
  }

  /**
   * A click whose request goes through opens the page exactly when, at the moment
   * the server handled it, the last thing that happened to the id was an unexpired
   * write, and the key of that write fits the parts of its link; without such a
   * write it is spent. Any fault returns
   * the page to ready with its link kept, and the record is still there to be
   * fetched unless GETDEL was reached. Other pages and clients may do anything
   * between the three steps.
   */
  lemma ClickOutcome(now: Time, moves: seq<Move>, t: nat, trip: Trip, between: seq<Move>, later: seq<Move>, decrypts: bool)
    requires Enabled(Run(now, moves), Serve(t, trip))
    requires forall i | 0 <= i < |between| :: between[i] != Receive(t)
    requires forall i | 0 <= i < |later| :: !(later[i].Decrypt? && later[i].t == t)
    ensures var s := Run(now, moves);
            var id := s.tabs[t].page.shareID;
            var sent := Apply(s, Serve(t, trip));
            var got := Apply(Continue(sent, between), Receive(t));
            var end := Apply(Continue(got, later), Decrypt(t, decrypts));
            && (Live(sent.w.store, id, sent.w.now)
                <==> Pending(s.w.log, id, s.w.now) && (trip.Handled? ==> trip.net.RequestLost?))
            && t < |got.tabs| && t < |end.tabs|
            && (Answers(trip) && !Pending(s.w.log, id, s.w.now) ==> got.tabs[t].page.state == Spent)
            && (Succeeds(trip) && Pending(s.w.log, id, s.w.now) ==>
                  && got.tabs[t].page.suspended == Decrypting(PendingKey(s.w.log, id, s.w.now))
                  && got.tabs[t].page.fragment == s.tabs[t].page.fragment
                  && end.tabs[t].page.state == if decrypts then Open else Spent)
            && (!Succeeds(trip) && !(Answers(trip) && !Pending(s.w.log, id, s.w.now)) ==>
                  got.tabs[t].page.state == Ready && got.tabs[t].page.fragment == s.tabs[t].page.fragment)
  {
    hide Run, After, Pending, PendingKey, Step, Apply, Continue;
    RunIsCoherent(now, moves);
    var s := Run(now, moves);
    var id := s.tabs[t].page.shareID;
    assert TabOk(s.w.log, s.tabs[t]);
    LoadFindsPending(now, s.trace, id);
    StoredKey(now, s.trace, id);
    ServedTab(s, t, trip);
    AfterTake(s.w, id, trip);
    ReplyOutcome(s, t, trip, between);
    var got := Apply(Continue(Apply(s, Serve(t, trip)), between), Receive(t));
    TabsRemain(got, later, t);
    TabsRemain(Continue(got, later), [Decrypt(t, decrypts)], t);
    ContinueOne(Continue(got, later), Decrypt(t, decrypts));
    if Succeeds(trip) && Pending(s.w.log, id, s.w.now) {
      WaitingStays(got, later, t);
      DecryptedTab(Continue(got, later), t, decrypts);
    }
  }

  lemma AfterTake(w: World, id: Id, trip: Trip)
    ensures trip.Handled? ==>
      var w' := Step(w, Take(id, trip.net.Answered? && trip.decodes));
      !Live(w'.store, id, w'.now)
  {
  }

  lemma ContinueOne(s: System, m: Move)
    ensures Continue(s, [m]) == Apply(s, m)
  {
    hide Apply;
    assert [m][..0] == [];
    assert Continue(s, []) == s;
  }

  lemma {:induction false} TabsRemain(s: System, moves: seq<Move>, t: nat)
    requires t < |s.tabs|
    ensures t < |Continue(s, moves).tabs|
  {
    hide Step;
    if moves != [] {
      TabsRemain(s, moves[..|moves| - 1], t);
    }
  }

  // From a link to an open page.

  lemma {:induction false} ContinueAppend(s: System, first: seq<Move>, second: seq<Move>)
    ensures Continue(s, first + second) == Continue(Continue(s, first), second)
  {
    hide Apply;
    if second == [] {
      assert first + second == first;
    } else {
      var n := |second| - 1;
      ContinueAppend(s, first, second[..n]);
      assert (first + second)[..|first + second| - 1] == first + second[..n];
    }
  }

  lemma ContinueNext(s: System, moves: seq<Move>, m: Move)
    ensures Continue(s, moves + [m]) == Apply(Continue(s, moves), m)
  {
    hide Apply;
    assert (moves + [m])[..|moves|] == moves;
  }

  /** Neither the address of page t changes nor its button is pressed. */
  predicate LeavesIdle(moves: seq<Move>, t: nat) {
    forall i | 0 <= i < |moves| :: !(moves[i].ChangeHash? && moves[i].t == t) && moves[i] != Click(t)
  }

  /** The request of page t is not handled yet. */
  predicate LeavesUnserved(moves: seq<Move>, t: nat) {
    forall i | 0 <= i < |moves| :: !(moves[i].Serve? && moves[i].t == t)
  }

  lemma {:induction false} IdleStays(s: System, moves: seq<Move>, t: nat)
    requires t < |s.tabs| && s.tabs[t].page.suspended.Idle? && s.tabs[t].flight.Nothing? && LeavesIdle(moves, t)
    ensures t < |Continue(s, moves).tabs| && Continue(s, moves).tabs[t] == s.tabs[t]
  {
    hide Step;
    if moves != [] {
      IdleStays(s, moves[..|moves| - 1], t);
    }
  }

  lemma {:induction false} RequestStays(s: System, moves: seq<Move>, t: nat)
    requires t < |s.tabs| && s.tabs[t].page.suspended.Fetching? && s.tabs[t].flight.Requested?
    requires s.tabs[t].page.state == Working && s.tabs[t].page.buttonDisabled && LeavesUnserved(moves, t)
    ensures t < |Continue(s, moves).tabs|
    ensures SameButHash(s.tabs[t].page, Continue(s, moves).tabs[t].page)
    ensures Continue(s, moves).tabs[t] == s.tabs[t].(page := Continue(s, moves).tabs[t].page)
  {
    hide Step;
    if moves != [] {
      RequestStays(s, moves[..|moves| - 1], t);
    }
  }

  /** A link with three well-formed parts and an id that a path can name. */
  predicate IsUsable(origin: string, id: string, e: Encrypted) {
    && IsAscii(id) && id !in {"", ".", ".."} && IsAsciiTriple(e) && '#' !in origin
    && MatchesPattern(e.wrapped) && MatchesPattern(e.iv) && MatchesPattern(e.ct)
  }

  /** A browser opens the link: the server puts the id of the path into the page, and the fragment stays with it. */
  function Visit(origin: string, id: string, e: Encrypted): Move
    requires IsAscii(id) && IsAsciiTriple(e)
  {
    var url := BuildShareURL(origin, id, e);
    Load(match ReadId(origin, url) case Some(shareID) => shareID case None => "", HashOf(url))
  }

  /** The page of a usable link, as soon as it is loaded. */
  lemma VisitIsReady(origin: string, id: string, e: Encrypted, s: System)
    requires IsUsable(origin, id, e)
    ensures var s' := Apply(s, Visit(origin, id, e));
            var hash := HashOf(BuildShareURL(origin, id, e));
            |s'.tabs| == |s.tabs| + 1
            && s'.tabs[|s.tabs|] == Tab(Page(id, hash, Ready, false, Some(e), Idle), Nothing, None, 0)
  {
    hide ReadId, HashOf, BuildShareURL, Loaded, HashChanged, IsAscii, MatchesPattern, IsAsciiTriple;
    PathsCarryId(origin, id, e);
    LinkIsInspected(Page(id, "", Ready, false, None, Idle), origin, id, e);
  }

  /**
   * In every run: a usable link is opened, and some time later the button is pressed.
   * Then one request for the id of the link is under way, and the page holds the
   * parts of the link. Anything may happen meanwhile that leaves this page alone.
   */
  lemma LinkReachesServer(now: Time, moves: seq<Move>, origin: string, id: string, e: Encrypted,
                          idle: seq<Move>, waiting: seq<Move>)
    requires IsUsable(origin, id, e)
    requires LeavesIdle(idle, |Run(now, moves).tabs|) && LeavesUnserved(waiting, |Run(now, moves).tabs|)
    ensures var t := |Run(now, moves).tabs|;
            var s := Run(now, moves + [Visit(origin, id, e)] + idle + [Click(t)] + waiting);
            && t < |s.tabs|
            && var tab := s.tabs[t];
               && tab.flight.Requested? && tab.fetches == 1 && tab.got.None?
               && tab.page == Page(id, tab.page.hash, Working, true, Some(e), Fetching)
  {
    hide Apply, Continue, MatchesPattern, IsAscii, IsAsciiTriple, LeavesIdle, LeavesUnserved, Visit;
    var s := Run(now, moves);
    var t := |s.tabs|;
    ContinueNext(Boot(now), moves, Visit(origin, id, e));
    VisitIsReady(origin, id, e, s);
    var loaded := moves + [Visit(origin, id, e)];
    ContinueAppend(Boot(now), loaded, idle);
    IdleStays(Run(now, loaded), idle, t);
    ContinueNext(Boot(now), loaded + idle, Click(t));
    IdIsNamed(origin, id, e);
    ClickSends(now, loaded + idle, t);
    ContinueAppend(Boot(now), loaded + idle + [Click(t)], waiting);
    RequestStays(Run(now, loaded + idle + [Click(t)]), waiting, t);
  }

  lemma IdIsNamed(origin: string, id: string, e: Encrypted)
    requires IsUsable(origin, id, e)
    ensures id != ""
  {
  }

  /** Page t is left to receive its reply, and then to try its key. */
  predicate LeavesReply(moves: seq<Move>, t: nat) {
    forall i | 0 <= i < |moves| :: moves[i] != Receive(t)
  }

  predicate LeavesKey(moves: seq<Move>, t: nat) {
    forall i | 0 <= i < |moves| :: !(moves[i].Decrypt? && moves[i].t == t)
  }

  lemma RunsOn(now: Time, moves: seq<Move>, more: seq<Move>, m: Move)
    ensures Run(now, moves + more + [m]) == Apply(Continue(Run(now, moves), more), m)
  {
    hide Apply, Continue;
    ContinueAppend(Boot(now), moves, more);
    ContinueNext(Boot(now), moves + more, m);
  }

  /**
   * From the link to the note, over every run: if the record of the id is pending when the
   * server handles the request, the page tries the saved key on the very parts of the link,
   * and opens exactly when it fits. Otherwise the page is spent. Between these steps all other pages, clients and the clock go on.
   */
  lemma LinkOpens(now: Time, moves: seq<Move>, origin: string, id: string, e: Encrypted, idle: seq<Move>, waiting: seq<Move>,
                  between: seq<Move>, later: seq<Move>, decrypts: bool)
    requires IsUsable(origin, id, e)
    requires LeavesIdle(idle, |Run(now, moves).tabs|) && LeavesUnserved(waiting, |Run(now, moves).tabs|)
    requires LeavesReply(between, |Run(now, moves).tabs|) && LeavesKey(later, |Run(now, moves).tabs|)
    ensures var t := |Run(now, moves).tabs|;
            var asked := moves + [Visit(origin, id, e)] + idle + [Click(t)] + waiting;
            var answered := asked + [Serve(t, Handled(Answered, true, true))] + between + [Receive(t)];
            var s, got, end := Run(now, asked), Run(now, answered), Run(now, answered + later + [Decrypt(t, decrypts)]);
            && t < |got.tabs| && t < |end.tabs|
            && (Pending(s.w.log, id, s.w.now) ==>
                  && got.tabs[t].page.suspended == Decrypting(PendingKey(s.w.log, id, s.w.now))
                  && got.tabs[t].page.fragment == Some(e))
            && end.tabs[t].page.state == if Pending(s.w.log, id, s.w.now) && decrypts then Open else Spent
  {
    hide Pending, PendingKey, Apply, Continue, MatchesPattern, IsAscii, IsAsciiTriple, LeavesIdle, LeavesUnserved, Visit;
    var t := |Run(now, moves).tabs|;
    var trip := Handled(Answered, true, true);
    var asked := moves + [Visit(origin, id, e)] + idle + [Click(t)] + waiting;
    var answered := asked + [Serve(t, trip)] + between + [Receive(t)];
    LinkReachesServer(now, moves, origin, id, e, idle, waiting);
    ClickOutcome(now, asked, t, trip, between, later, decrypts);
    ContinueNext(Boot(now), asked, Serve(t, trip));
    RunsOn(now, asked + [Serve(t, trip)], between, Receive(t));
    RunsOn(now, answered, later, Decrypt(t, decrypts));
    if !Pending(Run(now, asked).w.log, id, Run(now, asked).w.now) {
      FinishedForever(now, answered, later + [Decrypt(t, decrypts)], t);
      assert answered + (later + [Decrypt(t, decrypts)]) == answered + later + [Decrypt(t, decrypts)];
    }
  }
}
