/**
 * The part of JavaScript's value semantics that the response extraction
 * `res.data.candidates[0].content.parts[0].text` depends on: values decoded
 * from JSON, property access, and the TypeError thrown when a property is
 * read from `undefined` or `null`.
 */
module JsValue {
  import opened Wrappers

  /** A JavaScript value as JSON decoding produces it (plus `undefined`). */
  datatype Value =
    | Undefined
    | Null
    | Bool(b: bool)
    | Num(n: int)
    | Str(s: string)
    | Arr(elems: seq<Value>)
    | Obj(props: map<string, Value>)

  /** Reading a property of such a value throws a TypeError naming the property. */
  datatype TypeError = CannotReadProperty(key: string)

  /** `undefined` and `null`: the two values whose properties cannot be read. */
  predicate Nullish(v: Value) {
    v.Undefined? || v.Null?
  }

  /** Value of the decimal digits `d` (most significant first). */
  function DigitsValue(d: string): nat
    requires forall i | 0 <= i < |d| :: '0' <= d[i] <= '9'
  {
    if d == [] then 0 else 10 * DigitsValue(d[..|d| - 1]) + (d[|d| - 1] as int - '0' as int)
  }

  /** The array index a property key denotes: a canonical decimal numeral ("0", "17", not "017"). */
  function ArrayIndex(key: string): (r: Option<nat>)
    ensures r == Some(0) <==> key == "0"
  {
    if key != [] && (forall i | 0 <= i < |key| :: '0' <= key[i] <= '9') && (key[0] != '0' || key == "0")
    then
      var n := DigitsValue(key);
      assert key != "0" ==> n != 0 by {
        if key != "0" && n == 0 { ZeroDigits(key); }
      }
      assert key == "0" ==> n == 0 by {
        if key == "0" {
          assert |key| == 1 && key[..|key| - 1] == [] && key[|key| - 1] == '0';
          assert DigitsValue(key) == 10 * DigitsValue([]) + 0;
        }
      }
      Some(n)
    else None
  }

  /** A numeral whose value is 0 consists of zeros only. */
  lemma {:induction false} ZeroDigits(d: string)
    requires d != []
    requires forall i | 0 <= i < |d| :: '0' <= d[i] <= '9'
    requires DigitsValue(d) == 0
    ensures d[0] == '0'
  {
    if |d| > 1 { ZeroDigits(d[..|d| - 1]); }
  }

  /**
   * `v[key]` for a value that is not nullish: own properties of objects,
   * elements and `length` of arrays, characters and `length` of strings;
   * everything else reads as `undefined`.
   */
  function Property(v: Value, key: string): (r: Value)
    requires !Nullish(v)
    ensures v.Obj? ==> r == (if key in v.props then v.props[key] else Undefined)
    ensures v.Bool? || v.Num? ==> r == Undefined
  {
    match v
    case Obj(m) => if key in m then m[key] else Undefined
    case Arr(a) =>
      if key == "length" then Num(|a|)
      else (match ArrayIndex(key)
            case Some(i) => if i < |a| then a[i] else Undefined
            case None => Undefined)
    case Str(s) =>
      if key == "length" then Num(|s|)
      else (match ArrayIndex(key)
            case Some(i) => if i < |s| then Str([s[i]]) else Undefined
            case None => Undefined)
    case _ => Undefined
  }

  /** The unguarded access chain `v.k0.k1...`: throws at the first nullish value it reads from. */
  function Walk(v: Value, path: seq<string>): (r: Result<Value, TypeError>)
    ensures path == [] ==> r == Ok(v)
    ensures r.Err? ==> exists k | 0 <= k < |path| :: r.error == CannotReadProperty(path[k])
    decreases |path|
  {
    if path == [] then Ok(v)
    else if Nullish(v) then Err(CannotReadProperty(path[0]))
    else
      var r := Walk(Property(v, path[0]), path[1..]);
      assert r.Err? ==> exists k | 0 <= k < |path| :: r.error == CannotReadProperty(path[k]) by {
        if r.Err? {
          var k :| 0 <= k < |path[1..]| && r.error == CannotReadProperty(path[1..][k]);
          assert path[1..][k] == path[k + 1];
        }
      }
      r
  }

  /** The optional chain `v?.k0?.k1...`: yields `undefined` where the plain chain would throw. */
  function Follow(v: Value, path: seq<string>): Value
    decreases |path|
  {
    if path == [] then v
    else if Nullish(v) then Undefined
    else Follow(Property(v, path[0]), path[1..])
  }

  /**
   * The unguarded chain succeeds exactly when no value it reads a property
   * from is nullish, and then it agrees with the optional chain.
   */
  lemma {:induction false} WalkMatchesFollow(v: Value, path: seq<string>)
    ensures Walk(v, path).Ok? <==> forall k | 0 <= k < |path| :: !Nullish(Follow(v, path[..k]))
    ensures Walk(v, path).Ok? ==> Walk(v, path).value == Follow(v, path)
    decreases |path|
  {
    if path == [] {
    } else if Nullish(v) {
      assert path[..0] == [];
    } else {
      var w := Property(v, path[0]);
      WalkMatchesFollow(w, path[1..]);
      forall k | 0 < k <= |path[1..]|
        ensures Follow(v, path[..k]) == Follow(w, path[1..][..k - 1])
      {
        assert path[..k][1..] == path[1..][..k - 1];
      }
      assert path[..0] == [];
      if Walk(v, path).Ok? {
        forall k | 0 <= k < |path| ensures !Nullish(Follow(v, path[..k])) {
          if k > 0 { assert !Nullish(Follow(w, path[1..][..k - 1])); }
        }
      }
      if forall k | 0 <= k < |path| :: !Nullish(Follow(v, path[..k])) {
        forall j | 0 <= j < |path[1..]| ensures !Nullish(Follow(w, path[1..][..j])) {
          assert !Nullish(Follow(v, path[..j + 1]));
        }
      }
    }
  }

  /** The chain throws exactly when some value it reads from is nullish, naming the property it was reading. */
  lemma {:induction false} WalkThrowsAtFirstNullish(v: Value, path: seq<string>)
    ensures Walk(v, path).Err? ==>
      exists k | 0 <= k < |path| ::
        && Nullish(Follow(v, path[..k]))
        && (forall j | 0 <= j < k :: !Nullish(Follow(v, path[..j])))
        && Walk(v, path).error == CannotReadProperty(path[k])
    decreases |path|
  {
    if path != [] {
      if Nullish(v) {
        assert path[..0] == [];
        assert Nullish(Follow(v, path[..0]));
      } else {
        var w := Property(v, path[0]);
        WalkThrowsAtFirstNullish(w, path[1..]);
        if Walk(v, path).Err? {
          var k :| 0 <= k < |path[1..]| && Nullish(Follow(w, path[1..][..k]))
                   && (forall j | 0 <= j < k :: !Nullish(Follow(w, path[1..][..j])))
                   && Walk(w, path[1..]).error == CannotReadProperty(path[1..][k]);
          assert path[..k + 1][1..] == path[1..][..k];
          assert Nullish(Follow(v, path[..k + 1]));
          assert path[..0] == [];
          forall j | 0 <= j < k + 1 ensures !Nullish(Follow(v, path[..j])) {
            if j > 0 {
              assert path[..j][1..] == path[1..][..j - 1];
              assert !Nullish(Follow(w, path[1..][..j - 1]));
            }
          }
        }
      }
    }
  }
}
