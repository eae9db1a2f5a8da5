/**
 * The extension's popup (`extension/popup.js`): it lists the saved credentials fetched
 * from the backend, and a click injects a one-shot `fillTheForm` into the active tab,
 * which fills both fields when it finds both and alerts otherwise.
 */
module Popup {
  import opened Wrappers
  import opened Dom
  import Records

  const UsernameSelectors := [
    AttrEquals("name", "username"),
    AttrEquals("type", "text"),
    AttrContains("name", "email"),
    AttrEquals("type", "email"),
    AttrEquals("autocomplete", "username")
  ]

  const PasswordSelectors := [
    AttrEquals("type", "password"),
    AttrContains("name", "pass"),
    AttrEquals("name", "password"),
    AttrEquals("autocomplete", "current-password")
  ]

  const FieldsMissing := "Could not find username or password fields on this page."
  const NoDescriptorError := "TypeError"

  /**
   * The popup's `setReactInputValue`. Here `.set` is read without `?.`, so a prototype with
   * no `value` descriptor at all throws before anything is assigned; a descriptor without a
   * setter falls back to plain assignment, which that same setter-less accessor drops.
   */
  function SetValue(e: Element, value: string): (fx: seq<Effect>)
    ensures e.valueDescriptor == NoDescriptor <==> fx == [Thrown(NoDescriptorError)]
    ensures e.valueDescriptor != NoDescriptor ==>
      && |fx| == 2 && fx[0].Assign? && fx[0].target == e.key && fx[0].value == value
      && (fx[0].route == NativeSetter <==> e.valueDescriptor == AccessorWithSetter)
      && (fx[0].route == IgnoredAssignment <==> e.valueDescriptor == AccessorWithoutSetter)
      && fx[1] == InputEvent(e.key, true)
  {
    match e.valueDescriptor
    case NoDescriptor => [Thrown(NoDescriptorError)]
    case AccessorWithSetter => [Assign(e.key, value, NativeSetter), InputEvent(e.key, true)]
    case AccessorWithoutSetter => [Assign(e.key, value, IgnoredAssignment), InputEvent(e.key, true)]
  }

  /** Only the native setter changes a field here: the fallback either throws or is dropped. */
  predicate Settable(e: Element) {
    e.valueDescriptor == AccessorWithSetter
  }

  predicate Throws(fx: seq<Effect>) {
    |fx| > 0 && fx[|fx| - 1].Thrown?
  }

  /** The injected one-shot `fillTheForm`: both fields are filled, username first, or neither. */
  function FillTheForm(doc: seq<Element>, username: string, password: string): (fx: seq<Effect>)
    ensures QuerySelector(doc, UsernameSelectors).None? || QuerySelector(doc, PasswordSelectors).None? <==>
      fx == [Alert(FieldsMissing)]
    ensures QuerySelector(doc, UsernameSelectors).Some? && QuerySelector(doc, PasswordSelectors).Some? ==>
      var u := QuerySelector(doc, UsernameSelectors).value;
      var p := QuerySelector(doc, PasswordSelectors).value;
      && |fx| >= |SetValue(u, username)| && fx[..|SetValue(u, username)|] == SetValue(u, username)
      && (if Throws(SetValue(u, username)) then fx == SetValue(u, username)
          else fx == SetValue(u, username) + SetValue(p, password))
  {
    var usernameField := QuerySelector(doc, UsernameSelectors);
    var passwordField := QuerySelector(doc, PasswordSelectors);
    if usernameField.Some? && passwordField.Some? then
      var first := SetValue(usernameField.value, username);
      if Throws(first) then first
      else
        var fx := first + SetValue(passwordField.value, password);
        assert fx[..|first|] == first;
        fx
    else [Alert(FieldsMissing)]
  }

  /** When the page lacks either field, no field is touched at all. */
  lemma MissingFieldTouchesNothing(doc: seq<Element>, username: string, password: string, k: nat)
    requires QuerySelector(doc, UsernameSelectors).None? || QuerySelector(doc, PasswordSelectors).None?
    ensures !Touches(FillTheForm(doc, username, password), k)
  {
  }

  /**
   * With both fields present and distinct, a field with a native setter ends up holding its
   * credential and any other field keeps what it held. A username field without a `value`
   * descriptor throws before either field is written.
   */
  lemma FillsBoth(doc: seq<Element>, values: map<nat, string>, username: string, password: string)
    requires QuerySelector(doc, UsernameSelectors).Some? && QuerySelector(doc, PasswordSelectors).Some?
    requires QuerySelector(doc, UsernameSelectors).value.key != QuerySelector(doc, PasswordSelectors).value.key
    ensures var u := QuerySelector(doc, UsernameSelectors).value;
      var p := QuerySelector(doc, PasswordSelectors).value;
      var after := Apply(values, FillTheForm(doc, username, password));
      && (Settable(u) ==> Holds(after, u.key, username))
      && (!Settable(u) ==> Kept(values, after, u.key))
      && (Settable(p) && u.valueDescriptor != NoDescriptor ==> Holds(after, p.key, password))
      && (!Settable(p) || u.valueDescriptor == NoDescriptor ==> Kept(values, after, p.key))
  {
    var u := QuerySelector(doc, UsernameSelectors).value;
    var p := QuerySelector(doc, PasswordSelectors).value;
    var first := SetValue(u, username);
    SetValueEffect(values, u, username);
    if u.valueDescriptor != NoDescriptor {
      var mid := Apply(values, first);
      ApplyConcat(values, first, SetValue(p, password));
      SetValueEffect(mid, p, password);
    }
  }

  /** One call writes the field exactly when it has a native setter, and changes nothing else. */
  lemma SetValueEffect(values: map<nat, string>, e: Element, value: string)
    ensures Settable(e) ==> Apply(values, SetValue(e, value)) == values[e.key := value]
    ensures !Settable(e) ==> Apply(values, SetValue(e, value)) == values
  {
    var fx := SetValue(e, value);
    if e.valueDescriptor == NoDescriptor {
      assert fx[1..] == [];
    } else {
      var mid := AfterEffect(values, fx[0]);
      assert fx[1..][1..] == [];
      assert Apply(mid, fx[1..]) == mid;
    }
  }

  /* ------------------------------ the credential list ------------------------------ */

  const NotLoggedIn := "Error: Please log in to your password manager first."
  const NoneSaved := "No passwords saved yet."
  const Unreachable := "Error: Could not connect to the backend server. Is it running?"

  /** A list item: its text and the credentials its click autofills. */
  datatype Item = Item(text: string, username: string, password: string)

  datatype ListView = Notice(message: string) | Items(items: seq<Item>)

  function Label(p: Records.Entry): string {
    p.website + " (" + p.username + ")"
  }

  /**
   * The list after `GET /passwords`: `status` is the response status and `body` the
   * parsed JSON list, `None` when the body does not parse. A failed fetch is `status` 0.
   */
  function Render(status: int, body: Option<seq<Records.Entry>>): (v: ListView)
    ensures status == 401 <==> v == Notice(NotLoggedIn)
    ensures status != 401 && !(200 <= status < 300) ==> v == Notice(Unreachable)
    ensures 200 <= status < 300 && body.None? ==> v == Notice(Unreachable)
    ensures 200 <= status < 300 && body == Some([]) ==> v == Notice(NoneSaved)
    ensures v.Items? <==> 200 <= status < 300 && body.Some? && |body.value| > 0
    ensures v.Items? ==> (|v.items| == |body.value|
      && forall i :: 0 <= i < |v.items| ==>
           v.items[i].text == Label(body.value[i])
           && v.items[i].username == body.value[i].username
           && v.items[i].password == body.value[i].password)
  {
    if status == 401 then Notice(NotLoggedIn)
    else if !(200 <= status < 300) then Notice(Unreachable)
    else if body.None? then Notice(Unreachable)
    else if |body.value| == 0 then Notice(NoneSaved)
    else Items(seq(|body.value|, i requires 0 <= i < |body.value| => ItemFor(body.value[i])))
  }

  function ItemFor(p: Records.Entry): Item {
    Item(Label(p), p.username, p.password)
  }

  /** The label reads `website (username)`: the website, a space, and the username in parentheses. */
  lemma LabelShape(p: Records.Entry)
    ensures Label(p)[..|p.website|] == p.website
    ensures Label(p)[|p.website|..|p.website| + 2] == " ("
    ensures Label(p)[|p.website| + 2..|Label(p)| - 1] == p.username
    ensures Label(p)[|Label(p)| - 1] == ')'
  {
  }

  /**
   * Clicking the `i`-th item of a page whose two fields are present and distinct writes
   * exactly the `i`-th record's username and password into the fields that take them.
   */
  lemma ClickFillsThatRecord(body: seq<Records.Entry>, i: nat, doc: seq<Element>, values: map<nat, string>)
    requires 0 <= i < |body|
    requires QuerySelector(doc, UsernameSelectors).Some? && QuerySelector(doc, PasswordSelectors).Some?
    requires QuerySelector(doc, UsernameSelectors).value.key != QuerySelector(doc, PasswordSelectors).value.key
    ensures var v := Render(200, Some(body));
      var u := QuerySelector(doc, UsernameSelectors).value;
      var p := QuerySelector(doc, PasswordSelectors).value;
      && v.Items?
      && var after := Apply(values, FillTheForm(doc, v.items[i].username, v.items[i].password));
      && (Settable(u) ==> Holds(after, u.key, body[i].username))
      && (Settable(u) && Settable(p) ==> Holds(after, p.key, body[i].password))
  {
    var v := Render(200, Some(body));
    FillsBoth(doc, values, v.items[i].username, v.items[i].password);
  }
}
