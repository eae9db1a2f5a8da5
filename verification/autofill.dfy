/**
 * The extension's background script (`extension/background.js`): on a `SEAMLESS_AUTOFILL`
 * message it opens the target in a new tab, waits for that tab to finish loading, and
 * injects `fillTheForm`, which polls for a username field, fills it, and fills the
 * password either at once or, on a multi-step form, when a later DOM mutation brings
 * the password field in.
 *
 * Time is counted in ticks of 100 ms from the moment the script is injected (tick 0).
 * The page is a timeline of snapshots: the document at each tick and whether a
 * child-list mutation happened in it. Past the end of the timeline the page stays as
 * its last snapshot shows it, with no further mutations.
 */
module Autofill {
  import opened Wrappers
  import opened Dom
  import Dashboard
  import Text

  /* ------------------------------ the page ------------------------------ */

  datatype Snapshot = Snapshot(elements: seq<Element>, mutated: bool)

  type Timeline = seq<Snapshot>

  function Frame(tl: Timeline, t: nat): (s: Snapshot)
    ensures t >= |tl| ==> !s.mutated
  {
    if t < |tl| then tl[t]
    else if |tl| == 0 then Snapshot([], false)
    else Snapshot(tl[|tl| - 1].elements, false)
  }

  const TickMs := 100
  /** `setInterval(..., 100)`: one poll per tick. */
  const PollIntervalMs := 100
  const MaxAttempts := 100
  /** `setTimeout(() => observer.disconnect(), 15000)`, in ticks. */
  const ObserverLifetimeMs := 15000
  const ObserverLifetime := ObserverLifetimeMs / TickMs

  const TimedOut := "Password Manager: Timed out waiting for login fields."

  const UsernameSelectors := [
    AttrEquals("id", "username"),
    AttrEquals("name", "accountIdentifier"),
    AttrEquals("autocomplete", "username"),
    AttrEquals("name", "text"),
    AttrEquals("formcontrolname", "RegisterNumber"),
    AttrEquals("id", "RegisterNumber"),
    AttrContains("name", "user"),
    AttrContains("name", "login"),
    AttrContains("name", "email"),
    AttrEquals("type", "email")
  ]

  const PasswordSelectors := [
    AttrEquals("autocomplete", "current-password"),
    AttrEquals("name", "password"),
    AttrEquals("formcontrolname", "Password"),
    AttrEquals("name", "Password"),
    AttrEquals("type", "password")
  ]

  /** Tick `t` shows a field for `sels`; with `onMutation`, only if a mutation is delivered then. */
  predicate Hit(tl: Timeline, sels: seq<Selector>, t: nat, onMutation: bool) {
    && (onMutation ==> Frame(tl, t).mutated)
    && QuerySelector(Frame(tl, t).elements, sels).Some?
  }

  /** Reference definition: the first tick in `[from, until)` that is a hit. */
  function FirstTick(tl: Timeline, sels: seq<Selector>, from: nat, until: nat, onMutation: bool): (r: Option<nat>)
    ensures r.Some? ==> (from <= r.value < until && Hit(tl, sels, r.value, onMutation)
      && forall t :: from <= t < r.value ==> !Hit(tl, sels, t, onMutation))
    ensures r.None? ==> forall t :: from <= t < until ==> !Hit(tl, sels, t, onMutation)
    decreases until - from
  {
    if from >= until then None
    else if Hit(tl, sels, from, onMutation) then Some(from)
    else FirstTick(tl, sels, from + 1, until, onMutation)
  }

  /* ------------------------------ setReactInputValue ------------------------------ */

  /**
   * The native setter is used when the prototype's `value` descriptor has one; a missing
   * descriptor or setter falls back to assignment (the `?.` makes a missing descriptor
   * harmless). That assignment is dropped when it meets the setter-less accessor. Either
   * way one bubbling `input` event follows.
   */
  function SetValue(e: Element, value: string): (fx: seq<Effect>)
    ensures |fx| == 2 && fx[0].Assign? && fx[0].target == e.key && fx[0].value == value
    ensures fx[0].route == NativeSetter <==> e.valueDescriptor == AccessorWithSetter
    ensures fx[0].route == IgnoredAssignment <==> e.valueDescriptor == AccessorWithoutSetter
    ensures fx[1] == InputEvent(e.key, true)
  {
    var route := match e.valueDescriptor
      case AccessorWithSetter => NativeSetter
      case NoDescriptor => DirectAssignment
      case AccessorWithoutSetter => IgnoredAssignment;
    [Assign(e.key, value, route), InputEvent(e.key, true)]
  }

  /** Whether a value written by `SetValue` reaches the field. */
  predicate Lands(e: Element) {
    e.valueDescriptor != AccessorWithoutSetter
  }

  /**
   * The field ends up holding the value, unless its `value` accessor has no setter, in which
   * case no field changes; either way exactly one bubbling `input` event reaches it.
   */
  lemma SetValueEffect(values: map<nat, string>, e: Element, value: string)
    ensures Lands(e) ==> Apply(values, SetValue(e, value)) == values[e.key := value]
    ensures !Lands(e) ==> Apply(values, SetValue(e, value)) == values
    ensures InputEvents(SetValue(e, value), e.key, true) == 1
    ensures InputEvents(SetValue(e, value), e.key, false) == 0
  {
    var fx := SetValue(e, value);
    var mid := AfterEffect(values, fx[0]);
    assert fx[1..][1..] == [];
    assert Apply(mid, fx[1..]) == mid;
    assert InputEvents(fx[1..], e.key, true) == 1;
    assert InputEvents(fx[1..], e.key, false) == 0;
  }

  /* ------------------------------ waitForElement ------------------------------ */

  /**
   * `waitForElement(sels, callback)`: polls at ticks 1, 2, ... until the field is there
   * or 100 polls have failed. Returns the argument of the single callback, the tick of
   * the callback, how many times the callback ran, and whether the interval was cleared.
   */
  method WaitForElement(tl: Timeline, sels: seq<Selector>)
    returns (found: Option<Element>, at: nat, callbacks: nat, cleared: bool)
    ensures callbacks == 1 && cleared
    ensures 1 <= at <= MaxAttempts
    ensures found.Some? ==> found == QuerySelector(Frame(tl, at).elements, sels)
    ensures match FirstTick(tl, sels, 1, MaxAttempts + 1, false)
      case Some(t) => at == t && found.Some?
      case None => at == MaxAttempts && found.None?
  {
    var attempts := 0;
    var intervalSet := true;
    var t := 0;
    found := None;
    callbacks := 0;
    while intervalSet
      invariant 0 <= t <= MaxAttempts
      invariant intervalSet ==> attempts == t < MaxAttempts && callbacks == 0 && found.None?
      invariant intervalSet ==> forall s :: 1 <= s <= t ==> !Hit(tl, sels, s, false)
      invariant !intervalSet ==> callbacks == 1 && 1 <= t
      invariant !intervalSet && found.Some? ==> (Hit(tl, sels, t, false)
        && found == QuerySelector(Frame(tl, t).elements, sels)
        && forall s :: 1 <= s < t ==> !Hit(tl, sels, s, false))
      invariant !intervalSet && found.None? ==> (t == MaxAttempts
        && forall s :: 1 <= s <= t ==> !Hit(tl, sels, s, false))
      decreases MaxAttempts - t
    {
      t := t + 1;
      var element := QuerySelector(Frame(tl, t).elements, sels);
      if element.Some? {
        intervalSet := false;
        callbacks := callbacks + 1;
        found := element;
      } else {
        attempts := attempts + 1;
        if attempts >= MaxAttempts {
          intervalSet := false;
          callbacks := callbacks + 1;
        }
      }
    }
    at := t;
    cleared := !intervalSet;
  }

  /* ------------------------------ the multi-step observer ------------------------------ */

  /**
   * The `MutationObserver` created at tick `t0`: each mutation delivered before the
   * 15 000 ms timeout probes for the password field and fills the first one found,
   * after which the observer disconnects itself; otherwise the timeout disconnects it.
   * Returns the field filled, the tick of disconnection and the fill's effects.
   */
  method Observe(tl: Timeline, t0: nat, password: string)
    returns (filled: Option<Element>, disconnectedAt: nat, fx: seq<Effect>)
    ensures t0 < disconnectedAt <= t0 + ObserverLifetime
    ensures match FirstTick(tl, PasswordSelectors, t0 + 1, t0 + ObserverLifetime, true)
      case Some(t) =>
        && disconnectedAt == t
        && filled == QuerySelector(Frame(tl, t).elements, PasswordSelectors)
        && filled.Some?
        && fx == SetValue(filled.value, password)
      case None => disconnectedAt == t0 + ObserverLifetime && filled.None? && fx == []
  {
    var connected := true;
    var t := t0;
    filled := None;
    fx := [];
    while connected
      invariant t0 <= t <= t0 + ObserverLifetime
      invariant connected ==> t < t0 + ObserverLifetime && filled.None? && fx == []
      invariant connected ==> forall s :: t0 + 1 <= s <= t ==> !Hit(tl, PasswordSelectors, s, true)
      invariant !connected && filled.Some? ==> (t0 < t < t0 + ObserverLifetime
        && Hit(tl, PasswordSelectors, t, true)
        && filled == QuerySelector(Frame(tl, t).elements, PasswordSelectors)
        && fx == SetValue(filled.value, password)
        && forall s :: t0 + 1 <= s < t ==> !Hit(tl, PasswordSelectors, s, true))
      invariant !connected && filled.None? ==> (t == t0 + ObserverLifetime && fx == []
        && forall s :: t0 + 1 <= s < t ==> !Hit(tl, PasswordSelectors, s, true))
      decreases t0 + ObserverLifetime - t
    {
      t := t + 1;
      if t == t0 + ObserverLifetime {
        connected := false;
      } else if Frame(tl, t).mutated {
        var field := QuerySelector(Frame(tl, t).elements, PasswordSelectors);
        if field.Some? {
          fx := SetValue(field.value, password);
          filled := field;
          connected := false;
        }
      }
    }
    disconnectedAt := t;
  }

  /* ------------------------------ fillTheForm ------------------------------ */

  /**
   * What `fillTheForm` does once the username field `u` turned up at tick `t0`: fill it,
   * then fill the password field at once if there is one, else hand over to the observer.
   */
  method FillFound(tl: Timeline, t0: nat, u: Element, username: string, password: string)
    returns (fx: seq<Effect>, observerCreated: bool, passwordAt: Option<nat>, disconnectedAt: Option<nat>)
    // The username field is filled first.
    ensures |fx| >= 2 && fx[..2] == SetValue(u, username)
    // Single step: the password field is already there; it is filled and no observer is made.
    ensures QuerySelector(Frame(tl, t0).elements, PasswordSelectors).Some? ==>
      var p := QuerySelector(Frame(tl, t0).elements, PasswordSelectors).value;
      !observerCreated && passwordAt == Some(t0) && disconnectedAt.None? && fx[2..] == SetValue(p, password)
    // Multi step: the first mutation showing a password field before the deadline fills it.
    ensures QuerySelector(Frame(tl, t0).elements, PasswordSelectors).None? ==>
      && observerCreated
      && passwordAt == FirstTick(tl, PasswordSelectors, t0 + 1, t0 + ObserverLifetime, true)
      && disconnectedAt.Some? && t0 < disconnectedAt.value <= t0 + ObserverLifetime
      && (passwordAt.None? ==> fx[2..] == [] && disconnectedAt == Some(t0 + ObserverLifetime))
      && (passwordAt.Some? ==>
            && disconnectedAt == passwordAt
            && fx[2..] == SetValue(QuerySelector(Frame(tl, passwordAt.value).elements, PasswordSelectors).value, password))
  {
    var first := SetValue(u, username);
    observerCreated := false;
    disconnectedAt := None;
    var passwordField := QuerySelector(Frame(tl, t0).elements, PasswordSelectors);
    if passwordField.Some? {
      fx := first + SetValue(passwordField.value, password);
      passwordAt := Some(t0);
      assert fx[..2] == first && fx[2..] == SetValue(passwordField.value, password);
      return;
    }
    observerCreated := true;
    var filled, off, more := Observe(tl, t0, password);
    fx := first + more;
    assert fx[..2] == first && fx[2..] == more;
    disconnectedAt := Some(off);
    passwordAt := FirstTick(tl, PasswordSelectors, t0 + 1, t0 + ObserverLifetime, true);
  }

  /**
   * `fillTheForm(username, password)` injected at tick 0. Returns the page effects in
   * order, the tick the username field was found, whether an observer was created, the
   * tick the password was filled and the tick the observer was disconnected.
   */
  method FillTheForm(tl: Timeline, username: string, password: string)
    returns (fx: seq<Effect>, usernameAt: Option<nat>, observerCreated: bool,
             passwordAt: Option<nat>, disconnectedAt: Option<nat>)
    // The username field is awaited with the bounded poll.
    ensures usernameAt == FirstTick(tl, UsernameSelectors, 1, MaxAttempts + 1, false)
    // No username field within 100 polls: an alert, and nothing is filled.
    ensures usernameAt.None? ==> fx == [Alert(TimedOut)] && !observerCreated && passwordAt.None?
    // Otherwise the rest is the flow after the field is found.
    ensures usernameAt.Some? ==>
      && QuerySelector(Frame(tl, usernameAt.value).elements, UsernameSelectors).Some?
      && |fx| >= 2
      && fx[..2] == SetValue(QuerySelector(Frame(tl, usernameAt.value).elements, UsernameSelectors).value, username)
    // An observer, once made, is always disconnected, at the latest when its lifetime ends.
    ensures observerCreated ==> (usernameAt.Some? && disconnectedAt.Some?
      && usernameAt.value < disconnectedAt.value <= usernameAt.value + ObserverLifetime)
    // No observer when the password field came with the username field.
    ensures usernameAt.Some? ==>
      (observerCreated <==> QuerySelector(Frame(tl, usernameAt.value).elements, PasswordSelectors).None?)
  {
    var field, at, _, _ := WaitForElement(tl, UsernameSelectors);
    if field.None? {
      usernameAt := None;
      fx := [Alert(TimedOut)];
      observerCreated := false;
      passwordAt := None;
      disconnectedAt := None;
      return;
    }
    usernameAt := Some(at);
    fx, observerCreated, passwordAt, disconnectedAt := FillFound(tl, at, field.value, username, password);
  }

  /**
   * On a single-step form whose two fields differ, the injected script leaves the username
   * field holding the username and the password field holding the password; a field whose
   * `value` accessor has no setter keeps what it held.
   */
  lemma SingleStepFillsBoth(values: map<nat, string>, u: Element, p: Element, username: string, password: string)
    requires u.key != p.key
    ensures var after := Apply(values, SetValue(u, username) + SetValue(p, password));
      && (Lands(u) ==> Holds(after, u.key, username))
      && (!Lands(u) ==> Kept(values, after, u.key))
      && (Lands(p) ==> Holds(after, p.key, password))
      && (!Lands(p) ==> Kept(values, after, p.key))
  {
    ApplyConcat(values, SetValue(u, username), SetValue(p, password));
    SetValueEffect(values, u, username);
    var mid := Apply(values, SetValue(u, username));
    SetValueEffect(mid, p, password);
  }

  /* ------------------------------ the message and tab listeners ------------------------------ */

  const SeamlessAutofillType := "SEAMLESS_AUTOFILL"

  /** The runtime message the content script relays from the dashboard's `autofillRequest` event. */
  datatype Message = Message(kind: string, payload: Dashboard.AutofillRequest)

  /** `chrome.tabs.create({ url, active: true })` with the credentials to inject once it loads. */
  datatype Launch = Launch(url: string, active: bool, username: string, password: string)

  function Relay(request: Dashboard.AutofillRequest): Message {
    Message(SeamlessAutofillType, request)
  }

  /** The `onMessage` listener: only `SEAMLESS_AUTOFILL` messages open a tab. */
  function OnMessage(m: Message): (r: Option<Launch>)
    ensures r.Some? <==> m.kind == SeamlessAutofillType
    ensures r.Some? ==> (r.value.url == m.payload.targetUrl && r.value.active
      && r.value.username == m.payload.username && r.value.password == m.payload.password)
  {
    if m.kind == SeamlessAutofillType then
      Some(Launch(m.payload.targetUrl, true, m.payload.username, m.payload.password))
    else None
  }

  /**
   * A dashboard autofill click opens an active tab carrying that credential, on a URL with a
   * scheme whenever the website has one or does not start with `http`.
   */
  lemma SeamlessAutofillLaunches(e: Dashboard.Entry)
    ensures var r := OnMessage(Relay(Dashboard.SeamlessAutofill(e)));
      && r.Some? && r.value.active
      && r.value.username == e.username && r.value.password == e.password
      && (Dashboard.HasScheme(e.website) || !Text.StartsWith(e.website, "http") ==> Dashboard.HasScheme(r.value.url))
  {
  }

  /** The site `httpbin.org` is opened as the scheme-less URL `httpbin.org`. */
  lemma HttpPrefixedSiteLaunchesWithoutScheme(e: Dashboard.Entry)
    requires e.website == "httpbin.org"
    ensures var r := OnMessage(Relay(Dashboard.SeamlessAutofill(e)));
      r.Some? && r.value.url == "httpbin.org" && !Dashboard.HasScheme(r.value.url)
  {
    Dashboard.AsWrittenTargetLacksScheme();
  }

  /** With the corrected target every autofill opens a tab on a URL with a scheme. */
  lemma IntendedAutofillLaunches(e: Dashboard.Entry)
    ensures var r := OnMessage(Relay(Dashboard.SeamlessAutofillIntended(e)));
      && r.Some? && r.value.active && Dashboard.HasScheme(r.value.url)
      && r.value.username == e.username && r.value.password == e.password
  {
  }

  /** One `chrome.tabs.onUpdated` event. */
  datatype TabUpdate = TabUpdate(tabId: int, status: Option<string>)

  predicate Completes(u: TabUpdate, newTab: int) {
    u.tabId == newTab && u.status == Some("complete")
  }

  /**
   * The `onUpdated` listener for the tab `newTab`, fed the tab events in order: it injects
   * the script at the first event for that tab whose status is `complete` and then removes
   * itself. Returns the index of that event, how many injections happened and whether the
   * listener is still registered.
   */
  method ListenForLoad(newTab: int, updates: seq<TabUpdate>)
    returns (injectedAt: Option<nat>, injections: nat, listening: bool)
    ensures injections <= 1
    ensures injectedAt.Some? <==> injections == 1
    ensures injectedAt.Some? <==> exists i :: 0 <= i < |updates| && Completes(updates[i], newTab)
    ensures injectedAt.Some? ==> (injectedAt.value < |updates| && Completes(updates[injectedAt.value], newTab)
      && forall j :: 0 <= j < injectedAt.value ==> !Completes(updates[j], newTab))
    ensures listening <==> injectedAt.None?
  {
    var i := 0;
    listening := true;
    injections := 0;
    injectedAt := None;
    while i < |updates| && listening
      invariant 0 <= i <= |updates|
      invariant listening ==> (injections == 0 && injectedAt.None?
        && forall j :: 0 <= j < i ==> !Completes(updates[j], newTab))
      invariant !listening ==> (injections == 1 && injectedAt == Some(i - 1) && 0 < i
        && Completes(updates[i - 1], newTab)
        && forall j :: 0 <= j < i - 1 ==> !Completes(updates[j], newTab))
      decreases |updates| - i
    {
      if Completes(updates[i], newTab) {
        injections := injections + 1;
        injectedAt := Some(i);
        listening := false;
      }
      i := i + 1;
    }
  }
}
