/**
 * create_nested_array: move the listed keys of a PHP array into a nested
 * array stored under one key (by default 'details').
 *
 * A PHP array is a map from keys to values; the insertion order of its keys
 * is not modelled.
 */
module NestedArray {
  import opened Wrappers

  /** A PHP value as far as this helper looks at it. */
  datatype Value =
    | Null
    | Scalar(text: string)               // any non-null value that is not an array
    | Array(entries: map<string, Value>)

  type PhpArray = map<string, Value>

  /** The exception: 'Unable to created nested array with key ...'. */
  datatype NestError = NotAnArray(nestedName: string)

  /** PHP's `isset($arr[$k])`: the key is present and its value is not null. */
  predicate IsSet(arr: PhpArray, k: string)
  {
    k in arr && !arr[k].Null?
  }

  /** The nested slot is an array, or absent (PHP creates it on first write). */
  predicate NestReady(arr: PhpArray, nested: string)
  {
    nested !in arr || arr[nested].Array?
  }

  /** The entries of the nested array; none when the slot is absent. */
  function Inner(arr: PhpArray, nested: string): map<string, Value>
    requires NestReady(arr, nested)
  {
    if nested in arr then arr[nested].entries else map[]
  }

  /** Lines 180-182: a missing or null nested slot becomes an empty array. */
  function Prepared(arr: PhpArray, nested: string): (p: PhpArray)
    ensures nested in p
    ensures !IsSet(arr, nested) ==> p[nested] == Array(map[])
    ensures forall k :: k != nested ==> (k in p <==> k in arr) && (k in arr ==> p[k] == arr[k])
    ensures IsSet(arr, nested) ==> p == arr
  {
    if IsSet(arr, nested) then arr else arr[nested := Array(map[])]
  }

  /**
   * One turn of the loop: a set key is copied into the nested array and
   * removed from the top level; a missing or null key changes nothing.
   */
  function MoveKey(arr: PhpArray, nested: string, k: string): (r: PhpArray)
    requires NestReady(arr, nested)
    ensures NestReady(r, nested)
  {
    if IsSet(arr, k) then arr[nested := Array(Inner(arr, nested)[k := arr[k]])] - {k}
    else arr
  }

  /** The loop over all listed keys, in order. */
  function MoveKeys(arr: PhpArray, nested: string, keys: seq<string>): (r: PhpArray)
    requires NestReady(arr, nested)
    ensures NestReady(r, nested)
    decreases |keys|
  {
    if keys == [] then arr else MoveKeys(MoveKey(arr, nested, keys[0]), nested, keys[1..])
  }

  /** `k` is listed and set in `arr`, so it is the one that moves. */
  predicate Moves(arr: PhpArray, keys: seq<string>, k: string)
  {
    k in keys && IsSet(arr, k)
  }

  /**
   * `r` is `arr` with the listed set keys moved into the nested array: each
   * of them is gone from the top level and present in the nested array with
   * its value; every other top-level key is as it was; and the nested array
   * keeps what it had, apart from the keys that moved in.
   */
  ghost predicate NestedFrom(arr: PhpArray, r: PhpArray, nested: string, keys: seq<string>)
    requires NestReady(arr, nested)
  {
    && nested in r && r[nested].Array?
    && (forall k :: Moves(arr, keys, k) ==>
          k !in r && k in r[nested].entries && r[nested].entries[k] == arr[k])
    && (forall k :: k != nested && !Moves(arr, keys, k) ==>
          (k in r <==> k in arr) && (k in r ==> r[k] == arr[k]))
    && (forall e :: e in r[nested].entries ==> Moves(arr, keys, e) || e in Inner(arr, nested))
    && (forall e :: e in Inner(arr, nested) && !Moves(arr, keys, e) ==>
          e in r[nested].entries && r[nested].entries[e] == Inner(arr, nested)[e])
  }

  /**
   * create_nested_array: throws when the nested slot holds a non-null value
   * that is not an array; otherwise runs the loop over the keys on the
   * prepared array. When the nested name is not itself listed, the result
   * nests exactly the listed keys that are set.
   */
  method CreateNestedArray(arr: PhpArray, keys: seq<string>, nested: string)
    returns (r: Result<PhpArray, NestError>)
    ensures r.Err? <==> nested in arr && arr[nested].Scalar?
    ensures r.Err? ==> r.error == NotAnArray(nested)
    ensures r.Ok? ==> r.value == MoveKeys(Prepared(arr, nested), nested, keys)
    ensures r.Ok? && nested !in keys ==> NestedFrom(Prepared(arr, nested), r.value, nested, keys)
  {
    var a := arr;
    if !IsSet(a, nested) {
      a := a[nested := Array(map[])];
    }
    if !a[nested].Array? {
      return Err(NotAnArray(nested));
    }
    var i := 0;
    while i < |keys|
      invariant 0 <= i <= |keys|
      invariant NestReady(a, nested)
      invariant MoveKeys(a, nested, keys[i..]) == MoveKeys(Prepared(arr, nested), nested, keys)
    {
      var k := keys[i];
      if k in a && a[k] != Null {
        if a[k] != Null {
          var inner := if nested in a then a[nested].entries else map[];
          a := a[nested := Array(inner[k := a[k]])];
        }
        a := a - {k};
      }
      assert keys[i..][1..] == keys[i + 1..];
      i := i + 1;
    }
    assert keys[i..] == [];
    r := Ok(a);
    if nested !in keys {
      MoveKeysNests(Prepared(arr, nested), nested, keys);
    }
  }

  /** The loop nests exactly the listed set keys, when the nested name is not listed. */
  lemma {:induction false} MoveKeysNests(arr: PhpArray, nested: string, keys: seq<string>)
    requires nested in arr && arr[nested].Array?
    requires nested !in keys
    ensures NestedFrom(arr, MoveKeys(arr, nested, keys), nested, keys)
    decreases |keys|
  {
    if keys != [] {
      var k := keys[0];
      var next := MoveKey(arr, nested, k);
      assert nested in next && next[nested].Array?;
      MoveKeysNests(next, nested, keys[1..]);
      assert keys == [k] + keys[1..];
      var r := MoveKeys(arr, nested, keys);
      assert r == MoveKeys(next, nested, keys[1..]);
      forall j | Moves(arr, keys, j)
        ensures j !in r && j in r[nested].entries && r[nested].entries[j] == arr[j]
      {
        if j != k {
          assert Moves(next, keys[1..], j);
        }
      }
      forall j | j != nested && !Moves(arr, keys, j)
        ensures (j in r <==> j in arr) && (j in r ==> r[j] == arr[j])
      {
        assert !Moves(next, keys[1..], j);
      }
      forall e | e in r[nested].entries
        ensures Moves(arr, keys, e) || e in Inner(arr, nested)
      {
        if !Moves(next, keys[1..], e) {
          assert e in Inner(next, nested);
        }
      }
      forall e | e in Inner(arr, nested) && !Moves(arr, keys, e)
        ensures e in r[nested].entries && r[nested].entries[e] == Inner(arr, nested)[e]
      {
        assert e in Inner(next, nested) && !Moves(next, keys[1..], e);
      }
    }
  }

  /** The loop over `keys` then `k` is the loop over `keys`, then one more turn for `k`. */
  lemma {:induction false} MoveKeysSnoc(arr: PhpArray, nested: string, keys: seq<string>, k: string)
    requires NestReady(arr, nested)
    ensures MoveKeys(arr, nested, keys + [k]) == MoveKey(MoveKeys(arr, nested, keys), nested, k)
    decreases |keys|
  {
    if keys == [] {
      assert [] + [k] == [k];
      assert [k][1..] == [];
    } else {
      assert (keys + [k])[0] == keys[0];
      assert (keys + [k])[1..] == keys[1..] + [k];
      MoveKeysSnoc(MoveKey(arr, nested, keys[0]), nested, keys[1..], k);
    }
  }

  /**
   * When the nested name is the last key listed, the nested array is gone
   * from the top level: it is copied into itself and then unset (or, if it
   * was absent by then, nothing is done and it stays absent).
   */
  lemma NestedNameListedLastIsDropped(arr: PhpArray, nested: string, keys: seq<string>)
    requires NestReady(arr, nested)
    requires keys != [] && keys[|keys| - 1] == nested
    ensures nested !in MoveKeys(arr, nested, keys)
  {
    var front := keys[..|keys| - 1];
    assert keys == front + [nested];
    MoveKeysSnoc(arr, nested, front, nested);
  }

  /**
   * A set key listed after the nested name re-creates the nested slot, as a
   * new array holding only that key: what the nested array held is lost.
   */
  lemma NestedNameThenKeyStartsAfresh()
    ensures var arr := map["details" := Array(map["x" := Scalar("0")]), "a" := Scalar("1")];
            MoveKeys(arr, "details", ["details", "a"]) == map["details" := Array(map["a" := Scalar("1")])]
  {
  }

  /** A listed key whose value is null stays at the top level, still null. */
  lemma NullKeyStays(arr: PhpArray, nested: string, keys: seq<string>, k: string)
    requires nested in arr && arr[nested].Array? && nested !in keys
    requires k in arr && arr[k] == Null && k != nested
    ensures var r := MoveKeys(arr, nested, keys);
            && k in r && r[k] == Null
            && nested in r && r[nested].Array?
            && (k in r[nested].entries <==> k in Inner(arr, nested))
  {
    MoveKeysNests(arr, nested, keys);
  }
}
