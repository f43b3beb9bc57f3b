/**
 * The values a YAML document parses to, as JavaScript sees them, and plain
 * JavaScript objects as ordered lists of (key, value) pairs: property
 * lookup, assignment, object spread and truthiness.
 */
module Values {
  import opened Optional
  import opened Text

  /** What `yaml.parse` produces: null, booleans, (integer) numbers, strings, arrays and objects. */
  datatype Value =
    | Null
    | Bool(b: bool)
    | Num(n: int)
    | Str(s: string)
    | Arr(items: seq<Value>)
    | Obj(fields: seq<(string, Value)>)

  /** A plain object: its own properties in insertion order. */
  type Record = seq<(string, Value)>

  /** Every key occurs once, as in any JavaScript object. */
  predicate UniqueKeys(r: Record)
  {
    forall i, j :: 0 <= i < j < |r| ==> r[i].0 != r[j].0
  }

  predicate HasKey(r: Record, k: string)
  {
    exists i :: 0 <= i < |r| && r[i].0 == k
  }

  /** `obj[k]`: the value of the first property named `k`, or nothing (`undefined`). */
  function Get(r: Record, k: string): (v: Option<Value>)
    ensures v.None? <==> !HasKey(r, k)
    ensures v.Some? ==> exists i :: 0 <= i < |r| && r[i] == (k, v.value)
  {
    if |r| == 0 then None
    else if r[0].0 == k then Some(r[0].1)
    else Get(r[1..], k)
  }

  /** `obj[k] = v`: an existing property keeps its place, a new one goes last. */
  function Assign(r: Record, k: string, v: Value): (r': Record)
    ensures Get(r', k) == Some(v)
    ensures forall k' :: k' != k ==> Get(r', k') == Get(r, k')
  {
    if |r| == 0 then [(k, v)]
    else if r[0].0 == k then [(k, v)] + r[1..]
    else [r[0]] + Assign(r[1..], k, v)
  }

  /** Assigning a new key appends it. */
  lemma {:induction false} AssignNewKey(r: Record, k: string, v: Value)
    requires !HasKey(r, k)
    ensures Assign(r, k, v) == r + [(k, v)]
  {
    if |r| > 0 {
      var t := r[1..];
      assert r[0].0 != k;
      HasKeyTail(r, k);
      AssignNewKey(t, k, v);
      assert Assign(r, k, v) == [r[0]] + (t + [(k, v)]);
      assert r == [r[0]] + t;
    }
  }

  /** Assigning an existing key keeps every property name in its place. */
  lemma {:induction false} AssignExistingKey(r: Record, k: string, v: Value)
    requires HasKey(r, k)
    ensures |Assign(r, k, v)| == |r|
    ensures forall j :: 0 <= j < |r| ==> Assign(r, k, v)[j].0 == r[j].0
  {
    var a := Assign(r, k, v);
    if r[0].0 == k {
      assert a == [(k, v)] + r[1..];
    } else {
      var t := r[1..];
      HasKeyTail(r, k);
      AssignExistingKey(t, k, v);
      var at := Assign(t, k, v);
      assert a == [r[0]] + at;
      forall j | 0 < j < |r| ensures a[j].0 == r[j].0 {
        assert a[j] == at[j - 1] && r[j] == t[j - 1];
      }
    }
  }

  /** Past a first property of another name, `k` is a key of the object exactly when it is one of the rest. */
  lemma HasKeyTail(r: Record, k: string)
    requires |r| > 0 && r[0].0 != k
    ensures HasKey(r, k) <==> HasKey(r[1..], k)
  {
    if HasKey(r, k) {
      var i :| 0 <= i < |r| && r[i].0 == k;
      assert r[1..][i - 1] == r[i];
    }
    if HasKey(r[1..], k) {
      var i :| 0 <= i < |r| - 1 && r[1..][i].0 == k;
      assert r[i + 1] == r[1..][i];
    }
  }

  /** Assignment introduces no key but `k`, so the keys stay unique. */
  lemma AssignKeepsUnique(r: Record, k: string, v: Value)
    requires UniqueKeys(r)
    ensures UniqueKeys(Assign(r, k, v))
  {
    var a := Assign(r, k, v);
    if HasKey(r, k) {
      AssignExistingKey(r, k, v);
      forall i, j | 0 <= i < j < |a| ensures a[i].0 != a[j].0 {
        assert a[i].0 == r[i].0 && a[j].0 == r[j].0;
      }
    } else {
      AssignNewKey(r, k, v);
      forall i, j | 0 <= i < j < |a| ensures a[i].0 != a[j].0 {
        assert a[i] == r[i];
        if j < |r| { assert a[j] == r[j]; }
      }
    }
  }

  /** `{ ...base, ...updates }`: the properties of `updates` assigned over those of `base`, in order. */
  function Spread(base: Record, updates: Record): (r: Record)
    ensures forall k :: HasKey(base, k) || HasKey(updates, k) ==> HasKey(r, k)
    ensures forall k :: !HasKey(updates, k) ==> Get(r, k) == Get(base, k)
    decreases |updates|
  {
    if |updates| == 0 then base
    else Spread(Assign(base, updates[0].0, updates[0].1), updates[1..])
  }

  /** Spreading over an object with unique keys gives an object with unique keys. */
  lemma {:induction false} SpreadKeepsUnique(base: Record, updates: Record)
    requires UniqueKeys(base)
    ensures UniqueKeys(Spread(base, updates))
    decreases |updates|
  {
    if |updates| > 0 {
      AssignKeepsUnique(base, updates[0].0, updates[0].1);
      SpreadKeepsUnique(Assign(base, updates[0].0, updates[0].1), updates[1..]);
    }
  }

  /** Every key of `updates` ends up with its value from `updates`; every other key keeps its value from `base`. */
  lemma {:induction false} SpreadOverrides(base: Record, updates: Record, k: string)
    requires UniqueKeys(updates)
    ensures Get(Spread(base, updates), k) == if HasKey(updates, k) then Get(updates, k) else Get(base, k)
    decreases |updates|
  {
    if |updates| > 0 {
      var (k0, v0) := updates[0];
      var rest := updates[1..];
      assert UniqueKeys(rest);
      SpreadOverrides(Assign(base, k0, v0), rest, k);
      if k == k0 {
        assert !HasKey(rest, k);
      } else {
        assert HasKey(updates, k) <==> HasKey(rest, k);
      }
    }
  }

  /** Spreading nothing over an object copies it. */
  lemma SpreadNothing(base: Record)
    ensures Spread(base, []) == base
  {
  }

  /** JavaScript truthiness of a property read; `undefined` (nothing) and `null` are falsy. */
  function Truthy(v: Option<Value>): (t: bool)
    ensures v.None? || v == Some(Null) ==> !t
    ensures (exists s :: v == Some(Str(s))) ==> (t <==> v.value.s != "")
  {
    match v
    case None => false
    case Some(Null) => false
    case Some(Bool(b)) => b
    case Some(Num(n)) => n != 0
    case Some(Str(s)) => s != ""
    case Some(Arr(_)) => true
    case Some(Obj(_)) => true
  }

  /** `String(n)` for an integer. */
  function IntString(n: int): (r: string)
    ensures |r| >= 1
    ensures n >= 0 ==> r == DecimalString(n)
    ensures n < 0 ==> r[0] == '-'
  {
    if n < 0 then "-" + DecimalString(-n) else DecimalString(n)
  }

  /** An array seen as an object: its elements under the keys "0", "1", … */
  function IndexRecord(items: seq<Value>): (r: Record)
    ensures |r| == |items|
    ensures forall i :: 0 <= i < |items| ==> r[i] == (DecimalString(i), items[i])
  {
    seq(|items|, i requires 0 <= i < |items| => (DecimalString(i), items[i]))
  }

  /** No key of an array's object view is the name of a frontmatter field: the keys are all digits. */
  lemma IndexRecordHasNoNamedKeys(items: seq<Value>, k: string)
    requires exists j :: 0 <= j < |k| && !IsDigit(k[j])
    ensures Get(IndexRecord(items), k).None?
  {
  }

  /**
   * How `Array.prototype.join` renders an element: `null` as nothing,
   * an array as its own elements joined with `,`, an object as
   * `[object Object]`.
   */
  function ElementText(v: Value): string
  {
    match v
    case Null => ""
    case Bool(b) => if b then "true" else "false"
    case Num(n) => IntString(n)
    case Str(s) => s
    case Arr(items) => JoinValues(items, ",")
    case Obj(_) => "[object Object]"
  }

  /** `values.join(sep)`; on strings, it is the strings joined. */
  function JoinValues(values: seq<Value>, sep: string): (r: string)
    ensures forall xs :: values == Strs(xs) ==> r == Join(xs, sep)
    decreases values
  {
    if |values| == 0 then ""
    else if |values| == 1 then ElementText(values[0])
    else
      assert forall xs :: values == Strs(xs) ==> values[1..] == Strs(xs[1..]);
      ElementText(values[0]) + sep + JoinValues(values[1..], sep)
  }

  /** Wraps each string as a value. */
  function Strs(xs: seq<string>): (vs: seq<Value>)
    ensures |vs| == |xs| && forall i :: 0 <= i < |xs| ==> vs[i] == Str(xs[i])
  {
    seq(|xs|, i requires 0 <= i < |xs| => Str(xs[i]))
  }

  predicate AllStrings(vs: seq<Value>)
  {
    forall i :: 0 <= i < |vs| ==> vs[i].Str?
  }
}
