/** The part of the `json` crate's value type that scenario loading and
    scenario generation use: indexing, key tests, iteration and the
    numeric and string accessors, plus the decimal form of a `usize`
    (`to_string` and `parse`). Parsing and printing of JSON text is not
    modelled. */
module JsonValue {
  import opened Common

  /** An object keeps its entries in insertion order, as the crate does. */
  datatype Json =
    | Null
    | Boolean(b: bool)
    | Number(n: real)
    | Str(s: string)
    | Array(items: seq<Json>)
    | Object(fields: seq<(string, Json)>)

  /** Largest `usize` on a 64-bit target. */
  const UsizeMax: int := 0xFFFF_FFFF_FFFF_FFFF

  type Usize = n: int | 0 <= n <= UsizeMax

  /** `obj[key]` on an entry list: the value of the first entry with that key. */
  function Lookup(fields: seq<(string, Json)>, key: string): (v: Json)
    ensures v != Null ==> exists i :: 0 <= i < |fields| && fields[i] == (key, v)
  {
    if |fields| == 0 then Null
    else if fields[0].0 == key then fields[0].1
    else Lookup(fields[1..], key)
  }

  /** The first entry carrying the key decides the lookup. */
  lemma {:induction false} LookupAt(fields: seq<(string, Json)>, key: string, i: nat)
    requires i < |fields| && fields[i].0 == key
    requires forall k :: 0 <= k < i ==> fields[k].0 != key
    ensures Lookup(fields, key) == fields[i].1
  {
    if i > 0 {
      LookupAt(fields[1..], key, i - 1);
    }
  }

  /** Lookups in a list whose first four keys are pairwise distinct. */
  lemma LookupFour(fields: seq<(string, Json)>, k0: string, k1: string, k2: string, k3: string)
    requires |fields| >= 4
    requires fields[0].0 == k0 && fields[1].0 == k1 && fields[2].0 == k2 && fields[3].0 == k3
    requires k0 != k1 && k0 != k2 && k0 != k3 && k1 != k2 && k1 != k3 && k2 != k3
    ensures Lookup(fields, k0) == fields[0].1 && Lookup(fields, k1) == fields[1].1
    ensures Lookup(fields, k2) == fields[2].1 && Lookup(fields, k3) == fields[3].1
  {
    LookupAt(fields, k0, 0);
    LookupAt(fields, k1, 1);
    LookupAt(fields, k2, 2);
    LookupAt(fields, k3, 3);
  }

  /** `j[key]`: `Null` for a missing key and for anything but an object. */
  function Get(j: Json, key: string): Json {
    if j.Object? then Lookup(j.fields, key) else Null
  }

  /** `has_key`. */
  predicate HasKey(j: Json, key: string) {
    j.Object? && exists i :: 0 <= i < |j.fields| && j.fields[i].0 == key
  }

  /** `members()`: the items of an array, nothing otherwise. */
  function Members(j: Json): seq<Json> {
    if j.Array? then j.items else []
  }

  /** `entries()`: the entries of an object, nothing otherwise. */
  function Entries(j: Json): seq<(string, Json)> {
    if j.Object? then j.fields else []
  }

  /** `as_f32()`: f32 rounding is not modelled. */
  function AsF32(j: Json): (r: Option<real>)
    ensures r.Some? <==> j.Number?
  {
    if j.Number? then Some(j.n) else None
  }

  /** `as_usize()`: a non-negative whole number that fits in a `usize`. */
  function AsUsize(j: Json): (r: Option<Usize>)
    ensures r.Some? ==> j.Number? && j.n == r.value as real
  {
    if j.Number? && 0.0 <= j.n <= UsizeMax as real && j.n.Floor as real == j.n
    then Some(j.n.Floor) else None
  }

  /** `as_str()`. */
  function AsStr(j: Json): (r: Option<string>)
    ensures r.Some? <==> j.Str?
  {
    if j.Str? then Some(j.s) else None
  }

  /** `obj[key] = v` on an entry list: overwrite the first entry with that
      key in place, or append a new entry. */
  function Put(fields: seq<(string, Json)>, key: string, v: Json): (r: seq<(string, Json)>)
    ensures Lookup(r, key) == v
  {
    if |fields| == 0 then [(key, v)]
    else if fields[0].0 == key then [(key, v)] + fields[1..]
    else [fields[0]] + Put(fields[1..], key, v)
  }

  /** `j[key] = v`: a non-object is replaced by a fresh object first. */
  function Insert(j: Json, key: string, v: Json): (r: Json)
    ensures r.Object? && Get(r, key) == v
  {
    if j.Object? then Object(Put(j.fields, key, v)) else Object([(key, v)])
  }

  function DigitChar(d: nat): char
    requires d < 10
  {
    "0123456789"[d]
  }

  predicate IsDigit(c: char) {
    '0' <= c <= '9'
  }

  /** `usize::to_string`: the shortest decimal numeral. */
  function NatToString(n: nat): (s: string)
    ensures |s| > 0 && forall i :: 0 <= i < |s| ==> IsDigit(s[i])
  {
    if n < 10 then [DigitChar(n)] else NatToString(n / 10) + [DigitChar(n % 10)]
  }

  /** The value of a numeral of decimal digits. */
  function DigitsValue(s: string): nat
    requires forall i :: 0 <= i < |s| ==> IsDigit(s[i])
  {
    if |s| == 0 then 0
    else
      assert IsDigit(s[|s| - 1]);
      DigitsValue(s[..|s| - 1]) * 10 + ((s[|s| - 1] as int) - ('0' as int))
  }

  /** `str::parse::<usize>()`: an optional `+`, then at least one decimal
      digit and nothing else, with a value that fits in a `usize`. */
  function ParseUsize(s: string): (r: Option<Usize>)
    ensures r.Some? ==> |s| > 0
  {
    var digits := if |s| > 0 && s[0] == '+' then s[1..] else s;
    if |digits| > 0 && (forall i :: 0 <= i < |digits| ==> IsDigit(digits[i]))
       && DigitsValue(digits) <= UsizeMax
    then Some(DigitsValue(digits)) else None
  }

  lemma {:induction false} DigitsOfNatToString(n: nat)
    ensures DigitsValue(NatToString(n)) == n
  {
    if n >= 10 {
      var s := NatToString(n);
      assert s[..|s| - 1] == NatToString(n / 10);
      DigitsOfNatToString(n / 10);
    }
  }

  /** Printing a `usize` and parsing it back gives the same `usize`. */
  lemma ParsePrinted(n: Usize)
    ensures ParseUsize(NatToString(n)) == Some(n)
  {
    DigitsOfNatToString(n);
    var s := NatToString(n);
    assert s[0] != '+';
  }
}
