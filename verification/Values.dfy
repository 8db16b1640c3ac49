/** The decoded-config value model every layer of the engine speaks: objects, arrays,
    scalars and null, with the few accessors the laws are stated in. */
module Values {

  datatype Option<+T> = None | Some(value: T)

  /** A date or time, by its text. */
  type Stamp = s: string | |s| >= 10 witness "2006-01-02"

  /** A scalar by the Go type its decoder gives it: Whole is the 64-bit integer of TOML and of Lua, Machine
      the plain integer of YAML, and equality keeps the numeric types apart as reflect.DeepEqual does. */
  datatype Scalar = Text(text: string) | Flag(flag: bool) | Whole(n: int) | Machine(i: int) | Decimal(r: real) | Moment(stamp: Stamp)

  /** A decoded value. Lists are opaque to every merge: only an object has keys. */
  datatype Value = Null | Leaf(scalar: Scalar) | List(elems: seq<Value>) | Object(fields: Table)

  type Table = map<string, Value>

  /** From here on a float64 no longer tells every whole number from the next. */
  const MANTISSA: nat := 9007199254740992

  /** The distance between the float64 numbers around n. */
  function Ulp(n: nat): (u: nat)
    ensures u > 0
  {
    if n < MANTISSA then 1 else 2 * Ulp(n / 2)
  }

  /** The nearest float64, the even one of two equally near. */
  function Nearest(n: nat): int {
    if n < MANTISSA then n
    else
      var u := Ulp(n);
      var r := n % u;
      if 2 * r < u || (2 * r == u && n / u % 2 == 0) then n - r else n - r + u
  }

  /** A whole number converted to a float64. */
  function Float64(n: int): real {
    if n < 0 then -(Nearest(-n) as real) else Nearest(n) as real
  }

  type Path = seq<string>

  function At(t: Table, k: string): Option<Value> {
    if k in t then Some(t[k]) else None
  }

  /** The keys of a value seen as a patch target: a non-object counts as an empty table
      (section 2 of RFC 7386). */
  function Fields(v: Option<Value>): Table {
    if v.Some? && v.value.Object? then v.value.fields else map[]
  }

  function Child(v: Option<Value>, k: string): Option<Value> {
    At(Fields(v), k)
  }

  predicate IsObject(v: Option<Value>) {
    v.Some? && v.value.Object?
  }

  /** What a value holds at a key path; a path runs through objects only. */
  function Lookup(v: Option<Value>, path: Path): Option<Value>
    decreases |path|
  {
    if path == [] then v else Lookup(Child(v, path[0]), path[1..])
  }

  /** No object anywhere in the value holds a null under a key. */
  ghost predicate NullFree(v: Option<Value>)
    decreases v.Some?, if v.Some? then v.value else Null
  {
    v != Some(Null) &&
    forall k :: k in Fields(v) ==> NullFree(Child(v, k))
  }

  /** The value without its null-valued object keys, at every depth. */
  function StripNulls(v: Option<Value>): Option<Value>
    decreases v.Some?, if v.Some? then v.value else Null
  {
    if v == Some(Null) then None
    else if IsObject(v) then
      Some(Object(map k | k in Fields(v) && StripNulls(Child(v, k)).Some? :: StripNulls(Child(v, k)).value))
    else v
  }

  /** Tables, and objects, are equal when every key reads the same. */
  lemma {:induction false} SameTable(a: Table, b: Table)
    requires forall k :: At(a, k) == At(b, k)
    ensures a == b
  {
    forall k
      ensures k in a <==> k in b
      ensures k in a && k in b ==> a[k] == b[k]
    {
      assert At(a, k) == At(b, k);
    }
  }

  lemma {:induction false} SameObject(a: Option<Value>, b: Option<Value>)
    requires IsObject(a) && IsObject(b)
    requires forall k :: Child(a, k) == Child(b, k)
    ensures a == b
  {
    forall k ensures At(Fields(a), k) == At(Fields(b), k) {
      assert Child(a, k) == Child(b, k);
    }
    SameTable(Fields(a), Fields(b));
  }

  lemma {:induction false} StripNullFree(v: Option<Value>)
    ensures NullFree(StripNulls(v))
    ensures NullFree(v) ==> StripNulls(v) == v
    decreases v.Some?, if v.Some? then v.value else Null
  {
    if IsObject(v) {
      forall k | k in Fields(v)
        ensures NullFree(StripNulls(Child(v, k)))
        ensures NullFree(v) ==> StripNulls(Child(v, k)) == Child(v, k)
      {
        StripNullFree(Child(v, k));
      }
      if NullFree(v) {
        SameObject(StripNulls(v), v);
      }
    }
  }

  /** Some key no entry of a finite set uses. */
  lemma {:induction false} FreshKey(used: set<string>) returns (spare: string)
    ensures spare !in used
  {
    var longest := LongestBound(used);
    spare := seq(longest + 1, _ => 'x');
  }

  lemma {:induction false} LongestBound(used: set<string>) returns (bound: nat)
    ensures forall k :: k in used ==> |k| <= bound
  {
    bound := 0;
    var todo := used;
    while todo != {}
      invariant todo <= used
      invariant forall k :: k in used - todo ==> |k| <= bound
      decreases todo
    {
      var k :| k in todo;
      todo := todo - {k};
      if bound < |k| { bound := |k|; }
    }
  }
}
