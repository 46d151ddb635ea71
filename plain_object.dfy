/** `getBreakdown` accumulates into a plain object literal `{}` (script.js:187-194),
    which inherits the members of `Object.prototype`. This module follows that
    object as written, to show where it departs from the dictionary the breakdown
    needs (modelled by `Aggregate.Breakdown`). */
module PlainObjectBreakdown {

  import opened Activity
  import Aggregate

  /** The names a plain object inherits from `Object.prototype`. */
  const InheritedNames: set<string> := {
    "constructor", "hasOwnProperty", "isPrototypeOf", "propertyIsEnumerable",
    "toLocaleString", "toString", "valueOf", "__defineGetter__", "__defineSetter__",
    "__lookupGetter__", "__lookupSetter__", "__proto__"
  }

  /** The values the object's properties can hold here: `Inherited` is an
      inherited member (a function, or the prototype object itself), `Text` the
      string that `+` makes when one side is not a number. */
  datatype JsValue = Undefined | Num(n: int) | Inherited | Text

  /** The object's own properties and their insertion order. */
  datatype PlainObject = PlainObject(own: map<string, JsValue>, keys: seq<string>)

  const Empty := PlainObject(map[], [])

  /** `o[k]`: an own property, else an inherited one, else `undefined`. */
  function Get(o: PlainObject, k: string): JsValue {
    if k in o.own then o.own[k] else if k in InheritedNames then Inherited else Undefined
  }

  /** JavaScript truthiness; the strings made by `+` here are never empty. */
  predicate Truthy(v: JsValue) {
    match v
    case Undefined => false
    case Num(n) => n != 0
    case Inherited => true
    case Text => true
  }

  /** `o[k] = v`: creates or updates an own property, except that the inherited
      `__proto__` setter ignores values that are not objects. */
  function Put(o: PlainObject, k: string, v: JsValue): PlainObject {
    if k == "__proto__" then o
    else PlainObject(o.own[k := v], if k in o.own then o.keys else o.keys + [k])
  }

  /** `v + d` for a number `d` and a value `v` that is a number, an inherited function
      or the prototype object; `Step` never adds to `undefined` (which would give
      `NaN`), because it first stores 0 under a falsy name. */
  function Add(v: JsValue, d: int): JsValue {
    if v.Num? then Num(v.n + d) else Text
  }

  /** One call of the `forEach` callback (script.js:190-193). A name other than
      `__proto__` becomes an own property (appended to the key order when new);
      on `__proto__` the inherited getter's value is truthy, so the reset is
      skipped, and the setter ignores the `+=`: nothing changes. */
  function Step(o: PlainObject, a: Record): (r: PlainObject)
    ensures a.name == "__proto__" ==> r == o
    ensures a.name != "__proto__" ==> r.own.Keys == o.own.Keys + {a.name}
    ensures a.name != "__proto__" && a.name in o.own ==> r.keys == o.keys
    ensures a.name != "__proto__" && a.name !in o.own ==> r.keys == o.keys + [a.name]
  {
    var o1 := if !Truthy(Get(o, a.name)) then Put(o, a.name, Num(0)) else o;
    Put(o1, a.name, Add(Get(o1, a.name), a.duration))
  }

  /** The object after the `forEach` over the log, as written: it never gets an
      own `__proto__`, and it has at most one key per record. */
  function AccumulateAsWritten(rs: seq<Record>): (r: PlainObject)
    ensures "__proto__" !in r.own
    ensures |r.keys| <= |rs|
  {
    if rs == [] then Empty else Step(AccumulateAsWritten(rs[..|rs| - 1]), rs[|rs| - 1])
  }

  /** For every name the prototype does not supply, the object as written holds
      exactly the group sum the breakdown promises. */
  lemma {:induction false} AgreesOffPrototype(rs: seq<Record>, n: string)
    requires n !in InheritedNames
    ensures n in AccumulateAsWritten(rs).keys <==> Aggregate.Occurs(rs, n)
    ensures Get(AccumulateAsWritten(rs), n) ==
      if Aggregate.Occurs(rs, n) then Num(Aggregate.NameTotal(rs, n)) else Undefined
  {
    if rs != [] {
      var init, last := rs[..|rs| - 1], rs[|rs| - 1];
      AgreesOffPrototype(init, n);
      assert rs == init + [last];
      Aggregate.OccursSnoc(init, last);
      var o := AccumulateAsWritten(init);
      assert AccumulateAsWritten(rs) == Step(o, last);
      assert Aggregate.NameTotal(rs, n)
        == Aggregate.NameTotal(init, n) + (if last.name == n then last.duration else 0);
      if last.name == n {
        KeysAreOwn(init);
        if !Aggregate.Occurs(init, n) {
          Aggregate.NameTotalAbsent(init, n);
        }
        StepSameName(o, last);
      } else {
        StepOtherName(o, last, n);
      }
    }
  }

  /** A step leaves every other name's value and key as they were. */
  lemma StepOtherName(o: PlainObject, a: Record, n: string)
    requires n != a.name
    ensures Get(Step(o, a), n) == Get(o, n)
    ensures n in Step(o, a).keys <==> n in o.keys
  {
  }

  /** A step on a name the prototype does not supply, holding a number or nothing,
      adds the duration to that number (or to zero) and records the key. */
  lemma StepSameName(o: PlainObject, a: Record)
    requires a.name !in InheritedNames
    requires a.name in o.keys <==> a.name in o.own
    requires Get(o, a.name).Num? || Get(o, a.name).Undefined?
    ensures a.name in Step(o, a).keys
    ensures Get(Step(o, a), a.name)
      == Num((if Get(o, a.name).Num? then Get(o, a.name).n else 0) + a.duration)
  {
    assert a.name != "__proto__";
  }

  /** The recorded key order lists exactly the own properties. */
  lemma {:induction false} KeysAreOwn(rs: seq<Record>)
    ensures forall k :: k in AccumulateAsWritten(rs).keys <==> k in AccumulateAsWritten(rs).own
  {
    if rs != [] {
      KeysAreOwn(rs[..|rs| - 1]);
    }
  }

  /** An activity named `__proto__` vanishes from the breakdown: the object gets no
      key for it although the total counts its five seconds. */
  lemma ProtoActivityIsDropped()
    ensures var rs := [Record("__proto__", 0, 5000, 5)];
      AccumulateAsWritten(rs).keys == [] && Aggregate.Total(rs) == 5
  {
    var rs := [Record("__proto__", 0, 5000, 5)];
    assert rs[..0] == [];
  }

  /** An activity named `toString` gets a breakdown line whose duration is the text
      of a function followed by `60`, not the number 60. */
  lemma InheritedNameLosesItsSum()
    ensures var rs := [Record("toString", 0, 60000, 60)];
      AccumulateAsWritten(rs).keys == ["toString"]
      && AccumulateAsWritten(rs).own["toString"] == Text
      && Aggregate.NameTotal(rs, "toString") == 60
  {
    var rs := [Record("toString", 0, 60000, 60)];
    assert rs[..0] == [];
  }
}
