/**
 * The slice of a web page the injected autofill scripts see: `input` elements in
 * document order, the attribute selectors they query with, and the effects they have
 * on the page (value assignments, `input` events, alerts, a thrown error).
 */
module Dom {
  import opened Wrappers
  import Text

  /** What `Object.getOwnPropertyDescriptor(Object.getPrototypeOf(el), "value")` finds. */
  datatype Descriptor = NoDescriptor | AccessorWithoutSetter | AccessorWithSetter

  /** An element; `key` tells elements apart, `tag` is lower-case. */
  datatype Element = Element(key: nat, tag: string, attrs: map<string, string>, valueDescriptor: Descriptor)

  /** `input[attr="v"]` and `input[attr*="v"]`. */
  datatype Selector = AttrEquals(attr: string, value: string) | AttrContains(attr: string, value: string)

  predicate Matches(e: Element, s: Selector) {
    && e.tag == "input"
    && s.attr in e.attrs
    && match s
       case AttrEquals(a, v) => e.attrs[a] == v
       case AttrContains(a, v) => |v| > 0 && Text.Contains(e.attrs[a], v)
  }

  /** A selector list `a, b, c` matches an element matched by any of its members. */
  predicate MatchesAny(e: Element, sels: seq<Selector>) {
    exists k :: 0 <= k < |sels| && Matches(e, sels[k])
  }

  /** `document.querySelector(list)`: the first element in document order that the list matches. */
  function QuerySelector(doc: seq<Element>, sels: seq<Selector>): (r: Option<Element>)
    ensures r.None? <==> forall i :: 0 <= i < |doc| ==> !MatchesAny(doc[i], sels)
    ensures r.Some? ==> exists i :: (0 <= i < |doc| && doc[i] == r.value && MatchesAny(doc[i], sels)
      && forall j :: 0 <= j < i ==> !MatchesAny(doc[j], sels))
  {
    if |doc| == 0 then None
    else if MatchesAny(doc[0], sels) then Some(doc[0])
    else
      var r := QuerySelector(doc[1..], sels);
      assert forall i :: 1 <= i < |doc| ==> doc[i] == doc[1..][i - 1];
      if r.Some? then
        var i :| 0 <= i < |doc[1..]| && doc[1..][i] == r.value && MatchesAny(doc[1..][i], sels)
          && forall j :: 0 <= j < i ==> !MatchesAny(doc[1..][j], sels);
        assert forall j :: 0 <= j < i + 1 ==> !MatchesAny(doc[j], sels) by {
          assert forall j :: 1 <= j < i + 1 ==> doc[j] == doc[1..][j - 1];
        }
        r
      else r
  }

  /**
   * How a value was written: through the prototype's native setter, by a plain assignment
   * that lands, or by a plain assignment that meets an inherited `value` accessor with no
   * setter, which a non-strict script silently drops.
   */
  datatype Route = NativeSetter | DirectAssignment | IgnoredAssignment

  datatype Effect =
    | Assign(target: nat, value: string, route: Route)
    | InputEvent(target: nat, bubbles: bool)
    | Alert(message: string)
    | Thrown(error: string)

  /** The field values after one effect: only an assignment that is not dropped changes them. */
  function AfterEffect(values: map<nat, string>, e: Effect): map<nat, string> {
    match e
    case Assign(t, v, route) => if route == IgnoredAssignment then values else values[t := v]
    case _ => values
  }

  /** The field values after the effects, starting from `values`. */
  function Apply(values: map<nat, string>, fx: seq<Effect>): (r: map<nat, string>)
    ensures forall k :: k in values ==> k in r
    decreases |fx|
  {
    if |fx| == 0 then values
    else Apply(AfterEffect(values, fx[0]), fx[1..])
  }

  /** Field `k` holds `v`. */
  predicate Holds(values: map<nat, string>, k: nat, v: string) {
    k in values && values[k] == v
  }

  /** Field `k` is as it was in `before`. */
  predicate Kept(before: map<nat, string>, after: map<nat, string>, k: nat) {
    (k in after <==> k in before) && (k in before ==> after[k] == before[k])
  }

  /** The number of `input` events dispatched at `target` whose `bubbles` flag is `bubbling`. */
  function InputEvents(fx: seq<Effect>, target: nat, bubbling: bool): (n: nat)
    ensures n <= |fx|
  {
    if |fx| == 0 then 0
    else
      (if fx[0] == InputEvent(target, bubbling) then 1 else 0) + InputEvents(fx[1..], target, bubbling)
  }

  /** Whether some effect assigns `target`. */
  predicate Touches(fx: seq<Effect>, target: nat) {
    exists i :: 0 <= i < |fx| && fx[i].Assign? && fx[i].target == target
  }

  lemma {:induction false} ApplyConcat(values: map<nat, string>, a: seq<Effect>, b: seq<Effect>)
    ensures Apply(values, a + b) == Apply(Apply(values, a), b)
    decreases |a|
  {
    if |a| > 0 {
      assert (a + b)[1..] == a[1..] + b;
      assert (a + b)[0] == a[0];
      ApplyConcat(AfterEffect(values, a[0]), a[1..], b);
    } else {
      assert a + b == b;
    }
  }

  lemma {:induction false} ApplyUntouched(values: map<nat, string>, fx: seq<Effect>, k: nat)
    requires !Touches(fx, k)
    ensures k in values ==> k in Apply(values, fx) && Apply(values, fx)[k] == values[k]
    ensures k !in values ==> k !in Apply(values, fx)
    decreases |fx|
  {
    if |fx| > 0 {
      var next := AfterEffect(values, fx[0]);
      assert !Touches(fx[1..], k) by {
        assert forall i :: 1 <= i < |fx| ==> fx[1..][i - 1] == fx[i];
      }
      ApplyUntouched(next, fx[1..], k);
    }
  }

  lemma {:induction false} InputEventsConcat(a: seq<Effect>, b: seq<Effect>, target: nat, bubbling: bool)
    ensures InputEvents(a + b, target, bubbling) == InputEvents(a, target, bubbling) + InputEvents(b, target, bubbling)
    decreases |a|
  {
    if |a| > 0 {
      assert (a + b)[1..] == a[1..] + b;
      InputEventsConcat(a[1..], b, target, bubbling);
    } else {
      assert a + b == b;
    }
  }
}
