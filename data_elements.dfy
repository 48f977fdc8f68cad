/**
 * The values and the per-name storage cells of the data repository.
 *
 * A value (SaveableData) is modelled by its form, its save string and its editable flag.
 * The value classes themselves (DoubleData, DateData, StringData, ListData, the frozen
 * wrappers, the compiled functions) are not part of this model; the form records only what
 * the repository asks of a value with `instanceof`.
 */
module DataElements {
  import opened Wrappers

  /** putValue gives up beyond this nesting depth. */
  const MAX_RECURSION_DEPTH: nat := 100
  /** A datafile is saved once it has been marked modified more than this many times. */
  const MAX_DIRTY: nat := 10
  /** Names below this prefix are never announced to repository listeners. */
  const ANONYMOUS_PREFIX: string := "///Anonymous"

  /** The SimpleData classes the freezer can wrap, and every other simple value. */
  datatype SimpleKind = DoubleData | DateData | StringData | OtherSimple

  /** What the repository can tell about a value with `instanceof`. */
  datatype Form =
    | Simple(kind: SimpleKind)
    /** A DeferredData placeholder and what its realize() yields (None: it throws
      * MalformedValueException). */
    | Deferred(realized: Option<Value>)
    /** A FrozenData wrapper around the live value it was made from. */
    | Frozen(live: Value)
    | Malformed
    /** Any other SaveableData (functions and other compiled expressions). */
    | Computed

  /** A value: its form, its saveString() and its isEditable(). */
  datatype Value = Value(form: Form, text: string, editable: bool)

  /** A value just created by a value class, editable as every new value is. */
  function NewValue(form: Form, text: string): Value
  {
    Value(form, text, true)
  }

  /** `value instanceof DeferredData`, with null being no instance of anything. */
  predicate IsDeferred(v: Option<Value>)
  {
    v.Some? && v.value.form.Deferred?
  }

  /** `value instanceof FrozenData`. */
  predicate IsFrozen(v: Option<Value>)
  {
    v.Some? && v.value.form.Frozen?
  }

  /** DeferredData.realize(): the computed value, or a MalformedData holding the
    * placeholder's save string when the computation fails. */
  function Realize(v: Value): (r: Value)
    requires v.form.Deferred?
    ensures v.form.realized.None? ==> r.form == Malformed && r.text == v.text
    ensures v.form.realized.Some? ==> r == v.form.realized.value
  {
    match v.form.realized
    case Some(computed) => computed
    case None => NewValue(Malformed, v.text)
  }

  /** The interest registered on an element: never any (the null list), or the list of
    * current listeners, which may have become empty. */
  datatype Listeners = NeverSubscribed | Subscribed(ids: seq<nat>)

  /** A DataElement: its value (None for null), its `deferred` flag, the handle of the
    * datafile it is saved to (None for no datafile), and its listeners. */
  datatype Element = Element(value: Option<Value>, deferred: bool, datafile: Option<nat>, listeners: Listeners)

  /** DataElement.setValue: the value is replaced, and the element is deferred exactly
    * when the new value is a DeferredData. */
  function SetValue(e: Element, v: Option<Value>): (r: Element)
    ensures r.value == v && r.deferred == IsDeferred(v)
    ensures r.datafile == e.datafile && r.listeners == e.listeners
  {
    e.(value := v, deferred := IsDeferred(v))
  }

  /** DataElement.realize, entered through getValue/maybeRealize: a deferred element
    * swaps its placeholder for the realized value and stops being deferred. When the flag
    * is set but the value is no DeferredData, the cast fails and only the flag drops. */
  function Realized(e: Element): (r: Element)
    ensures !r.deferred && r.datafile == e.datafile && r.listeners == e.listeners
    ensures !e.deferred ==> r == e
    ensures e.deferred && IsDeferred(e.value) ==> r.value == Some(Realize(e.value.value))
    ensures e.deferred && !IsDeferred(e.value) ==> r.value == e.value
  {
    if !e.deferred then e
    else if IsDeferred(e.value) then e.(deferred := false, value := Some(Realize(e.value.value)))
    else e.(deferred := false)
  }

  /** What DataElement.getValue returns. */
  function CurrentValue(e: Element): Option<Value>
  {
    Realized(e).value
  }

  /** Realizing is idempotent, and reading a realized element gives the same value as
    * reading it before: realization is invisible to getValue. */
  lemma RealizeIsIdempotent(e: Element)
    ensures Realized(Realized(e)) == Realized(e)
    ensures CurrentValue(Realized(e)) == CurrentValue(e)
    ensures CurrentValue(e).None? <==> e.value.None?
  {
  }

  /** DataElement.disposeValue: the value stays, but the element stops being deferred. */
  function Disposed(e: Element): (r: Element)
    ensures r.value == e.value && !r.deferred && r.datafile == e.datafile && r.listeners == e.listeners
  {
    e.(deferred := false)
  }

  /** The elements' deferred flag is only ever set on a DeferredData value. */
  predicate WellFormed(e: Element)
  {
    e.deferred ==> IsDeferred(e.value)
  }

  /** putValue's test for marking the datafile modified: the values differ by identity and
    * by saveString. Two equal values have the same save string, so the identity test adds
    * nothing beyond the null cases. */
  predicate SaveStringChanged(oldValue: Option<Value>, newValue: Option<Value>)
  {
    match (oldValue, newValue)
    case (None, None) => false
    case (Some(a), Some(b)) => a.text != b.text
    case _ => true
  }

  lemma SaveStringChangedSpec(a: Option<Value>, b: Option<Value>)
    ensures SaveStringChanged(a, b) <==>
              (a.None? != b.None?) || (a.Some? && b.Some? && a.value.text != b.value.text)
    ensures a == b ==> !SaveStringChanged(a, b)
  {
  }

  /** maybeDelete's rule: an element is thrown away when no listener ever registered and it
    * has no value, or when its listener list has been emptied and it has no value or no
    * datafile. */
  predicate Discardable(e: Element)
  {
    match e.listeners
    case NeverSubscribed => CurrentValue(e).None?
    case Subscribed(ids) => ids == [] && (CurrentValue(e).None? || e.datafile.None?)
  }

  /** An element with a listener is never thrown away, and one with a value is thrown away
    * only once every listener it ever had has left and it has no datafile. */
  lemma DiscardableSpec(e: Element)
    ensures e.listeners.Subscribed? && e.listeners.ids != [] ==> !Discardable(e)
    ensures e.value.Some? && Discardable(e) ==> e.listeners == Subscribed([]) && e.datafile.None?
    ensures e.value.None? ==> (Discardable(e) <==> e.listeners.NeverSubscribed? || e.listeners.ids == [])
  {
  }

  /** Vector.removeElement: the first occurrence of `x` removed. */
  function RemoveFirst(s: seq<nat>, x: nat): (r: seq<nat>)
    ensures x !in s ==> r == s
    ensures x in s ==> |r| == |s| - 1
    ensures forall y :: y in r ==> y in s
    ensures forall y :: y in s && y != x ==> y in r
  {
    if s == [] then []
    else if s[0] == x then s[1..]
    else [s[0]] + RemoveFirst(s[1..], x)
  }

  /** Without duplicates, removing the first occurrence removes every occurrence. */
  lemma {:induction false} RemoveFirstOfDistinct(s: seq<nat>, x: nat)
    requires forall i, j :: 0 <= i < j < |s| ==> s[i] != s[j]
    ensures x !in RemoveFirst(s, x)
    ensures forall i, j :: 0 <= i < j < |RemoveFirst(s, x)| ==> RemoveFirst(s, x)[i] != RemoveFirst(s, x)[j]
  {
    if s != [] && s[0] != x {
      RemoveFirstOfDistinct(s[1..], x);
      var t := RemoveFirst(s[1..], x);
      assert s[0] !in s[1..];
      var r := [s[0]] + t;
      forall i, j | 0 <= i < j < |r|
        ensures r[i] != r[j]
      {
        if i == 0 {
          assert r[j] in t;
        } else {
          assert r[i] == t[i - 1] && r[j] == t[j - 1];
        }
      }
    }
  }

  /** One on-disk datafile: its name prefix, the include file it inherits defaults from,
    * its path, whether it can be written, and how often it was marked modified since it
    * was last saved. */
  datatype DataFile = DataFile(prefix: string, inheritsFrom: Option<string>, path: string,
                               canWrite: bool, dirtyCount: nat)

  /** What a DataEvent dispatched to the repository listeners carries. */
  datatype DataEvent = Added(name: string) | Removed(name: string, oldValue: Option<Value>)
}
