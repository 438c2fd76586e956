/**
 * The share page of static/share.js: a state machine driven by hash changes,
 * clicks and the two awaits of the click handler.
 */
module SharePage {
  import opened Wrappers
  import opened Base64Url
  import opened DataStream
  import opened Link

  datatype PageState = Ready | Working | Open | Spent | Invalid

  /** Where the click handler is suspended. */
  datatype Await = Idle | Fetching | Decrypting(privPem: string)

  /** What the browser sees of one request. */
  datatype Reply = NoResponse | Status(code: nat, body: string)

  /** What `fetchKey` returns: it throws, or resolves to null or to the key. */
  datatype Fetched = Thrown | Null | Text(privPem: string)

  function FetchKey(reply: Reply): Fetched {
    match reply
    case NoResponse => Thrown
    case Status(code, body) =>
      if code == 404 then Null
      else if !(200 <= code < 300) then Thrown
      else Text(body)
  }

  datatype Page = Page(shareID: string, hash: string, state: PageState, buttonDisabled: bool,
                       fragment: Option<Encrypted>, suspended: Await)

  function InState(p: Page, state: PageState): Page {
    p.(state := state, buttonDisabled := state != Ready)
  }

  function Inspected(p: Page): Page {
    match ParseFragment(p.hash)
    case Success(e) => InState(p.(fragment := Some(e)), Ready)
    case Failure(_) => InState(p.(fragment := None), Invalid)
  }

  function Loaded(shareID: string, hash: string): Page {
    Inspected(Page(shareID, hash, Ready, false, None, Idle))
  }

  function HashChanged(p: Page, hash: string): Page {
    var moved := p.(hash := hash);
    if p.state == Ready || p.state == Invalid then Inspected(moved) else moved
  }

  /** A disabled button delivers no click. */
  function Clicked(p: Page): Page {
    if p.buttonDisabled || p.fragment.None? || p.shareID == "" then p
    else InState(p, Working).(suspended := Fetching)
  }

  function AfterFetch(p: Page, reply: Reply): Page {
    match FetchKey(reply)
    case Thrown => InState(p, Ready).(suspended := Idle)
    case Null => InState(p, Spent).(suspended := Idle)
    case Text(privPem) => p.(suspended := Decrypting(privPem))
  }

  function AfterDecrypt(p: Page, decrypts: bool): Page {
    InState(p, if decrypts then Open else Spent).(suspended := Idle)
  }

  /** The page as an object of event handlers. */
  class SharePage {
    const shareID: string
    var hash: string
    var state: PageState
    var buttonDisabled: bool
    var fragment: Option<Encrypted>
    var suspended: Await

    function View(): Page
      reads this
    {
      Page(shareID, hash, state, buttonDisabled, fragment, suspended)
    }

    constructor (shareID: string, hash: string)
      ensures View() == Loaded(shareID, hash)
    {
      this.shareID, this.hash := shareID, hash;
      state, buttonDisabled, fragment, suspended := Ready, false, None, Idle;
      new;
      InspectLink();
    }

    method SetState(state: PageState)
      modifies this
      ensures View() == InState(old(View()), state)
    {
      this.state := state;
      buttonDisabled := state != Ready;
    }

    method InspectLink()
      modifies this
      ensures View() == Inspected(old(View()))
    {
      var parsed := ParseFragment(hash);
      match parsed
      case Success(e) =>
        fragment := Some(e);
        SetState(Ready);
      case Failure(_) =>
        fragment := None;
        SetState(Invalid);
    }

    method OnHashChange(hash: string)
      modifies this
      ensures View() == HashChanged(old(View()), hash)
    {
      this.hash := hash;
      if state == Ready || state == Invalid {
        InspectLink();
      }
    }

    /** Returns whether a request leaves the page. */
    method OnClick() returns (sent: bool)
      modifies this
      ensures View() == Clicked(old(View()))
      ensures sent <==> old(!buttonDisabled && fragment.Some? && shareID != "")
    {
      sent := false;
      if buttonDisabled || fragment == None || shareID == "" {
        return;
      }
      SetState(Working);
      suspended := Fetching;
      sent := true;
    }

    method OnReply(reply: Reply)
      modifies this
      ensures View() == AfterFetch(old(View()), reply)
    {
      match FetchKey(reply)
      case Thrown =>
        SetState(Ready);
        suspended := Idle;
      case Null =>
        SetState(Spent);
        suspended := Idle;
      case Text(privPem) =>
        suspended := Decrypting(privPem);
    }

    method OnDecrypted(decrypts: bool)
      modifies this
      ensures View() == AfterDecrypt(old(View()), decrypts)
    {
      if decrypts {
        SetState(Open);
      } else {
        SetState(Spent);
      }
      suspended := Idle;
    }
  }

  /** What every handler keeps. */
  predicate Consistent(p: Page) {
    && (p.state == Invalid <==> p.fragment == None)
    && (p.buttonDisabled <==> p.state != Ready)
    && (p.state == Working <==> p.suspended != Idle)
    && (p.fragment.Some? ==>
          && MatchesPattern(p.fragment.value.wrapped)
          && MatchesPattern(p.fragment.value.iv)
          && MatchesPattern(p.fragment.value.ct))
  }

  /** A page on this link: ready to decrypt its very parts if they are well formed, and invalid otherwise. */
  function PageOf(shareID: string, hash: string, e: Encrypted): Page {
    if MatchesPattern(e.wrapped) && MatchesPattern(e.iv) && MatchesPattern(e.ct)
    then Page(shareID, hash, Ready, false, Some(e), Idle)
    else Page(shareID, hash, Invalid, true, None, Idle)
  }

  /** A page loaded with a built link, or moved to it while ready or invalid, is the page of that link; a busy or finished one only notes the address. */
  lemma LinkIsInspected(p: Page, origin: string, id: string, e: Encrypted)
    requires IsAscii(id) && IsAsciiTriple(e) && '#' !in origin
    ensures var hash := HashOf(BuildShareURL(origin, id, e));
            && Loaded(p.shareID, hash) == PageOf(p.shareID, hash, e)
            && HashChanged(p, hash) ==
                 if p.state == Ready || p.state == Invalid
                 then PageOf(p.shareID, hash, e).(suspended := p.suspended) else p.(hash := hash)
  {
    hide ParseFragment, HashOf, BuildShareURL, MatchesPattern;
    LinkRoundTrip(origin, id, e);
    assert MatchesPattern(e.wrapped) ==> e.wrapped != "" by { EmptyNeverMatches(); }
    assert MatchesPattern(e.iv) ==> e.iv != "" by { EmptyNeverMatches(); }
    assert MatchesPattern(e.ct) ==> e.ct != "" by { EmptyNeverMatches(); }
  }

  lemma EmptyNeverMatches()
    ensures !MatchesPattern("")
  {
  }

  /** Whatever the address, a page is invalid exactly when the parser rejects it, and otherwise ready with what it parsed. */
  lemma InvalidExactly(p: Page, hash: string)
    ensures Loaded(p.shareID, hash).state == (if ParseFragment(hash).Failure? then Invalid else Ready)
    ensures p.state in {Ready, Invalid} ==>
      && HashChanged(p, hash).state == Loaded(p.shareID, hash).state
      && HashChanged(p, hash).fragment == Loaded(p.shareID, hash).fragment
      && HashChanged(p, hash).buttonDisabled == Loaded(p.shareID, hash).buttonDisabled
    ensures Loaded(p.shareID, hash).fragment
         == (match ParseFragment(hash) case Success(e) => Some(e) case Failure(_) => None)
  {
    hide ParseFragment;
  }

  lemma HandlersKeepConsistent(p: Page, hash: string, reply: Reply, decrypts: bool)
    ensures Consistent(Loaded(p.shareID, hash))
    ensures Consistent(p) ==> Consistent(HashChanged(p, hash)) && Consistent(Clicked(p))
    ensures Consistent(p) && p.suspended.Fetching? ==> Consistent(AfterFetch(p, reply))
    ensures Consistent(p) && p.suspended.Decrypting? ==> Consistent(AfterDecrypt(p, decrypts))
  {
    hide ParseFragment, MatchesPattern;
  }
}
