/** The few JavaScript value semantics the rest of the model depends on:
    truthiness, nullishness, and the two fallback operators `||` and `??`. */
module Js {
  import opened Wrappers

  /** A configuration value as JavaScript sees it. A key that is missing from an
      object reads as `Undefined`. */
  datatype JsValue = Undefined | Null | Str(s: string)

  /** JavaScript truthiness: `undefined`, `null` and `""` are falsy. */
  predicate Truthy(v: JsValue) {
    v.Str? && v.s != ""
  }

  /** The values that `??` and `?.` skip. */
  predicate Nullish(v: JsValue) {
    v.Undefined? || v.Null?
  }

  /** `a || b` */
  function Or(a: JsValue, b: JsValue): JsValue {
    if Truthy(a) then a else b
  }

  /** `a ?? b` */
  function Coalesce(a: JsValue, b: JsValue): JsValue {
    if Nullish(a) then b else a
  }

  /** JavaScript truthiness of an optional number: `undefined` and `0` are
      falsy (NaN is not modelled). */
  predicate NumTruthy(x: Option<int>) {
    x.Some? && x.value != 0
  }

  /** The members every plain object inherits from `Object.prototype`, which
      `key in obj` and `obj[key]` both find. */
  const PrototypeKeys: set<string> := {
    "constructor", "hasOwnProperty", "isPrototypeOf", "propertyIsEnumerable",
    "toLocaleString", "toString", "valueOf", "__proto__",
    "__defineGetter__", "__defineSetter__", "__lookupGetter__", "__lookupSetter__"
  }

  /** `obj[key]` on a plain record: a missing key reads as `undefined`. */
  function Lookup(m: map<string, JsValue>, key: string): JsValue {
    if key in m then m[key] else Undefined
  }

  /** Reference meaning of a chain `l0 || l1 || ... || ln` whose result must be
      truthy: the first truthy level, as a string. */
  function FirstTruthy(levels: seq<JsValue>): (r: Option<string>)
    ensures r.Some? <==> exists i :: 0 <= i < |levels| && Truthy(levels[i])
    ensures r.Some? ==> r.value != "" && Str(r.value) in levels
  {
    if |levels| == 0 then None
    else if Truthy(levels[0]) then Some(levels[0].s)
    else
      assert forall i :: 1 <= i < |levels| ==> levels[i] == levels[1..][i - 1];
      FirstTruthy(levels[1..])
  }

  /** Reference meaning of a chain `l0 ?? l1 ?? ... ?? ln`: the first level that is
      neither `null` nor `undefined`. */
  function FirstDefined(levels: seq<JsValue>): (r: Option<JsValue>)
    ensures r.None? <==> forall i :: 0 <= i < |levels| ==> Nullish(levels[i])
    ensures r.Some? ==> !Nullish(r.value) && r.value in levels
  {
    if |levels| == 0 then None
    else if !Nullish(levels[0]) then Some(levels[0])
    else
      assert forall i :: 1 <= i < |levels| ==> levels[i] == levels[1..][i - 1];
      FirstDefined(levels[1..])
  }

  /** Reference meaning of `l0 || l1 || ... || d` over optional numbers: the
      first truthy level, or the final default. */
  function FirstTruthyNumber(levels: seq<Option<int>>, default: int): (r: int)
    ensures (forall i :: 0 <= i < |levels| ==> !NumTruthy(levels[i])) ==> r == default
    ensures (exists i :: 0 <= i < |levels| && NumTruthy(levels[i])) ==>
              exists i :: 0 <= i < |levels| && NumTruthy(levels[i]) && r == levels[i].value
                          && forall j :: 0 <= j < i ==> !NumTruthy(levels[j])
  {
    if |levels| == 0 then default
    else if NumTruthy(levels[0]) then levels[0].value
    else
      assert forall i :: 1 <= i < |levels| ==> levels[i] == levels[1..][i - 1];
      var r := FirstTruthyNumber(levels[1..], default);
      assert (exists i :: 0 <= i < |levels| && NumTruthy(levels[i])) ==>
               exists i :: 0 <= i < |levels| && NumTruthy(levels[i]) && r == levels[i].value
                           && forall j :: 0 <= j < i ==> !NumTruthy(levels[j]) by {
        if exists i :: 0 <= i < |levels| && NumTruthy(levels[i]) {
          var i :| 0 <= i < |levels[1..]| && NumTruthy(levels[1..][i]) && r == levels[1..][i].value
                   && forall j :: 0 <= j < i ==> !NumTruthy(levels[1..][j]);
          assert forall j :: 0 <= j < i + 1 ==> !NumTruthy(levels[j]) by {
            forall j | 0 <= j < i + 1 ensures !NumTruthy(levels[j]) {
              if j > 0 { assert levels[j] == levels[1..][j - 1]; }
            }
          }
          assert NumTruthy(levels[i + 1]) && r == levels[i + 1].value;
        }
      }
      r
  }

  /** Reference meaning of `o0 || o1 || ... || d` where every present level is an
      object and hence truthy: the first present level, or the default. */
  function FirstPresent<T>(options: seq<Option<T>>, default: T): (r: T)
    ensures (forall i :: 0 <= i < |options| ==> options[i].None?) ==> r == default
    ensures (exists i :: 0 <= i < |options| && options[i].Some?) ==>
              exists i :: 0 <= i < |options| && options[i] == Some(r)
                          && forall j :: 0 <= j < i ==> options[j].None?
  {
    if |options| == 0 then default
    else if options[0].Some? then options[0].value
    else
      assert forall i :: 1 <= i < |options| ==> options[i] == options[1..][i - 1];
      var r := FirstPresent(options[1..], default);
      assert (exists i :: 0 <= i < |options| && options[i].Some?) ==>
               exists i :: 0 <= i < |options| && options[i] == Some(r)
                           && forall j :: 0 <= j < i ==> options[j].None? by {
        if exists i :: 0 <= i < |options| && options[i].Some? {
          var i :| 0 <= i < |options[1..]| && options[1..][i] == Some(r)
                   && forall j :: 0 <= j < i ==> options[1..][j].None?;
          assert forall j :: 0 <= j < i + 1 ==> options[j].None? by {
            forall j | 0 <= j < i + 1 ensures options[j].None? {
              if j > 0 { assert options[j] == options[1..][j - 1]; }
            }
          }
          assert options[i + 1] == Some(r);
        }
      }
      r
  }
}
