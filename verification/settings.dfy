/**
 `SettingValue<T>`: a value cell with a fixed default that counts the
 `Changed` events it fires. Equality is the type's own (`EqualityComparer<T>.Default`).
 */
module Settings {
  import opened Wrappers

  /** The current value, the default given at construction, and how many times `Changed` fired. */
  datatype Setting<T> = Setting(value: T, default: T, changed: nat)

  /** The constructor: the value starts at the default and no event has fired. */
  function NewSetting<T>(d: T): (r: Setting<T>)
    ensures r.value == d && r.default == d && r.changed == 0
  {
    Setting(d, d, 0)
  }

  /**
   The `Value` setter: an equal value changes nothing and fires nothing; a
   different value is stored and fires `Changed` once. The default never moves.
   */
  function Assign<T(==)>(s: Setting<T>, v: T): (r: Setting<T>)
    ensures r.value == v && r.default == s.default
    ensures v == s.value ==> r == s
    ensures v != s.value ==> r.changed == s.changed + 1
  {
    if v == s.value then s else s.(value := v, changed := s.changed + 1)
  }

  /** Assigning the same value twice is the same as assigning it once. */
  lemma AssignIdempotent<T>(s: Setting<T>, v: T)
    ensures Assign(Assign(s, v), v) == Assign(s, v)
  {
  }

  /** `ResetToDefault`: the value becomes the default, firing `Changed` exactly when it differed. */
  function ResetToDefault<T(==)>(s: Setting<T>): (r: Setting<T>)
    ensures r.value == s.default && r.default == s.default
    ensures r.changed == s.changed <==> s.value == s.default
    ensures r.changed <= s.changed + 1
  {
    Assign(s, s.default)
  }

  /**
   A JSON element as `ReadJson` sees it: `null`, undefined, or an element
   that deserializes to a value or to `null`.
   */
  datatype JsonElement<T> = JsonNull | JsonUndefined | JsonValue(parsed: Option<T>)

  /**
   `ReadJson`: a `null` or undefined element, and an element that
   deserializes to `null`, leave the setting as it was; any other value is
   assigned through the setter.
   */
  function ReadJson<T(==)>(s: Setting<T>, el: JsonElement<T>): (r: Setting<T>)
    ensures el.JsonNull? || el.JsonUndefined? ==> r == s
    ensures el.JsonValue? && el.parsed.None? ==> r == s
    ensures el.JsonValue? && el.parsed.Some? ==> r == Assign(s, el.parsed.value)
    ensures r.default == s.default
  {
    match el
    case JsonValue(Some(v)) => Assign(s, v)
    case _ => s
  }

  /** Successive assignments through the setter. */
  function AssignAll<T(==)>(s: Setting<T>, vs: seq<T>): Setting<T>
    decreases |vs|
  {
    if vs == [] then s else AssignAll(Assign(s, vs[0]), vs[1..])
  }

  /** How many values in `vs` differ from the one before them, starting from `prev`. */
  function Changes<T(==)>(prev: T, vs: seq<T>): nat
    decreases |vs|
  {
    if vs == [] then 0
    else (if vs[0] != prev then 1 else 0) + Changes(vs[0], vs[1..])
  }

  /**
   Over any sequence of assignments `Changed` fires once per actual change
   of value, the value ends at the last one assigned, and the default is untouched.
   */
  lemma {:induction false} AssignAllCounts<T>(s: Setting<T>, vs: seq<T>)
    ensures AssignAll(s, vs).changed == s.changed + Changes(s.value, vs)
    ensures AssignAll(s, vs).default == s.default
    ensures vs != [] ==> AssignAll(s, vs).value == vs[|vs| - 1]
    ensures vs == [] ==> AssignAll(s, vs) == s
    decreases |vs|
  {
    if vs != [] {
      AssignAllCounts(Assign(s, vs[0]), vs[1..]);
      if |vs| > 1 {
        assert vs[1..][|vs[1..]| - 1] == vs[|vs| - 1];
      }
    }
  }

  /** After any sequence of assignments, `ResetToDefault` brings back the constructor's value. */
  lemma ResetAfterAssignments<T>(d: T, vs: seq<T>)
    ensures ResetToDefault(AssignAll(NewSetting(d), vs)).value == d
  {
    AssignAllCounts(NewSetting(d), vs);
  }
}
