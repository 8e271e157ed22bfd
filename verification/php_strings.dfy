/**
 * The PHP string built-ins the helpers rely on: explode, implode, strtolower,
 * trim and str_replace with an empty replacement. Strings are byte strings:
 * each char stands for one byte, so `|s|` is PHP's strlen.
 */
module PhpStrings {

  /** `explode('.', s)`: the dot-separated labels of `s`, at least one. */
  function Explode(s: string): (labels: seq<string>)
    ensures |labels| >= 1
    decreases |s|
  {
    if s == [] then [""]
    else
      var rest := Explode(s[1..]);
      if s[0] == '.' then [""] + rest
      else [[s[0]] + rest[0]] + rest[1..]
  }

  /** No label contains a dot. */
  lemma {:induction false} ExplodeNoDots(s: string)
    ensures forall i :: 0 <= i < |Explode(s)| ==> '.' !in Explode(s)[i]
    decreases |s|
  {
    if s != [] {
      ExplodeNoDots(s[1..]);
      var rest := Explode(s[1..]);
      if s[0] != '.' {
        assert '.' !in [s[0]] + rest[0];
      }
    }
  }

  /** A string with n dots splits into n + 1 labels. */
  lemma {:induction false} ExplodeCount(s: string)
    ensures |Explode(s)| == multiset(s)['.'] + 1
    decreases |s|
  {
    if s != [] {
      ExplodeCount(s[1..]);
      assert s == [s[0]] + s[1..];
    }
  }

  /** `implode('.', labels)`: the labels joined by dots; no labels give "". */
  function Implode(labels: seq<string>): (s: string)
    ensures labels == [] ==> s == ""
    ensures labels != [] ==> |labels[0]| <= |s| && s[..|labels[0]|] == labels[0]
  {
    if labels == [] then ""
    else if |labels| == 1 then labels[0]
    else labels[0] + "." + Implode(labels[1..])
  }

  /** A non-empty label list gives back the first label, a dot and the rest joined. */
  lemma ImplodeCons(labels: seq<string>)
    requires |labels| >= 2
    ensures Implode(labels) == labels[0] + "." + Implode(labels[1..])
  {
  }

  lemma ImplodeGlue(p: string, labels: seq<string>)
    requires labels != []
    ensures Implode([p + labels[0]] + labels[1..]) == p + Implode(labels)
  {
    var ls := [p + labels[0]] + labels[1..];
    if |labels| > 1 {
      assert ls[1..] == labels[1..];
    }
  }

  /** Splitting on dots and joining with dots gives back the original string. */
  lemma {:induction false} ImplodeExplode(s: string)
    ensures Implode(Explode(s)) == s
    decreases |s|
  {
    if s != [] {
      ImplodeExplode(s[1..]);
      var rest := Explode(s[1..]);
      if s[0] == '.' {
        assert ([""] + rest)[1..] == rest;
        assert s == "." + s[1..];
      } else {
        ImplodeGlue([s[0]], rest);
        assert s == [s[0]] + s[1..];
      }
    }
  }

  lemma {:induction false} ExplodeLabelThen(x: string, t: string)
    requires '.' !in x
    ensures Explode(x + t) == [x + Explode(t)[0]] + Explode(t)[1..]
    decreases |x|
  {
    if x == [] {
      assert x + t == t;
      assert x + Explode(t)[0] == Explode(t)[0];
      assert Explode(t) == [Explode(t)[0]] + Explode(t)[1..];
    } else {
      assert (x + t)[1..] == x[1..] + t;
      ExplodeLabelThen(x[1..], t);
      assert [x[0]] + (x[1..] + Explode(t)[0]) == x + Explode(t)[0];
    }
  }

  lemma ExplodeDotThen(t: string)
    ensures Explode("." + t) == [""] + Explode(t)
  {
    assert ("." + t)[0] == '.' && ("." + t)[1..] == t;
  }

  lemma ExplodeImplodeStep(x: string, tail: seq<string>)
    requires '.' !in x && tail != []
    requires Explode(Implode(tail)) == tail
    ensures Explode(Implode([x] + tail)) == [x] + tail
  {
    var labels := [x] + tail;
    var rest := Implode(tail);
    var dotRest := "." + rest;
    assert labels[1..] == tail;
    ImplodeCons(labels);
    assert Implode(labels) == x + dotRest;
    ExplodeDotThen(rest);
    var e := Explode(dotRest);
    assert e[0] == "" && e[1..] == tail;
    ExplodeLabelThen(x, dotRest);
    assert x + e[0] == x;
  }

  /** A dot-free label followed by a dot splits off as the first label. */
  lemma ExplodeLabelDot(x: string, t: string)
    requires '.' !in x
    ensures Explode(x + "." + t) == [x] + Explode(t)
  {
    ExplodeDotThen(t);
    assert x + "." + t == x + ("." + t);
    ExplodeLabelThen(x, "." + t);
    assert x + "" == x;
  }

  /** A dot-free string is a single label. */
  lemma ExplodeLabel(x: string)
    requires '.' !in x
    ensures Explode(x) == [x]
  {
    ExplodeLabelThen(x, "");
    assert x + "" == x;
  }

  /** Joining dot-free labels and splitting again gives back the labels. */
  lemma {:induction false} ExplodeImplode(labels: seq<string>)
    requires labels != []
    requires forall i :: 0 <= i < |labels| ==> '.' !in labels[i]
    ensures Explode(Implode(labels)) == labels
    decreases |labels|
  {
    var x := labels[0];
    if |labels| == 1 {
      ExplodeLabelThen(x, "");
      assert x + "" == x;
    } else {
      ExplodeImplode(labels[1..]);
      ExplodeImplodeStep(x, labels[1..]);
      assert labels == [x] + labels[1..];
    }
  }

  /** PHP's ASCII `strtolower` on one byte. */
  function LowerChar(c: char): (d: char)
    ensures 'A' <= c <= 'Z' ==> d as int == c as int + 32
    ensures !('A' <= c <= 'Z') ==> d == c
  {
    if 'A' <= c <= 'Z' then (c as int + 32) as char else c
  }

  /** `strtolower(s)`: ASCII capitals become small letters, every other byte is kept. */
  function Lower(s: string): (r: string)
    ensures |r| == |s|
    ensures forall i :: 0 <= i < |s| ==> r[i] == LowerChar(s[i])
  {
    if s == [] then [] else [LowerChar(s[0])] + Lower(s[1..])
  }

  /** Exactly the four spellings of "en" lower-case to "en". */
  lemma LowerIsEn(s: string)
    ensures Lower(s) == "en" <==> s in {"en", "En", "eN", "EN"}
  {
    if Lower(s) == "en" {
      assert Lower(s)[0] == 'e' && Lower(s)[1] == 'n';
      assert s[0] == 'e' || s[0] == 'E';
      assert s[1] == 'n' || s[1] == 'N';
      assert s == [s[0], s[1]];
    }
  }

  /** A dot is neither produced nor removed by lower-casing. */
  lemma LowerKeepsDots(s: string)
    ensures '.' in Lower(s) <==> '.' in s
  {
    if '.' in Lower(s) {
      var i :| 0 <= i < |s| && Lower(s)[i] == '.';
      assert s[i] == '.';
    }
    if '.' in s {
      var i :| 0 <= i < |s| && s[i] == '.';
      assert Lower(s)[i] == '.';
    }
  }

  /** `ltrim(s, c)`: the longest suffix of `s` that does not start with `c`. */
  function TrimLeft(s: string, c: char): (r: string)
    ensures |r| <= |s| && r == s[|s| - |r|..]
    ensures forall i :: 0 <= i < |s| - |r| ==> s[i] == c
    ensures r == [] || r[0] != c
  {
    if s != [] && s[0] == c then TrimLeft(s[1..], c) else s
  }

  /** `rtrim(s, c)`: the longest prefix of `s` that does not end with `c`. */
  function TrimRight(s: string, c: char): (r: string)
    ensures |r| <= |s| && r == s[..|r|]
    ensures forall i :: |r| <= i < |s| ==> s[i] == c
    ensures r == [] || r[|r| - 1] != c
  {
    if s != [] && s[|s| - 1] == c then TrimRight(s[..|s| - 1], c) else s
  }

  /** `trim(s, c)`: `s` without the run of `c` at either end. */
  function Trim(s: string, c: char): (r: string)
    ensures |r| <= |s|
    ensures r == [] || (r[0] != c && r[|r| - 1] != c)
  {
    TrimRight(TrimLeft(s, c), c)
  }

  /**
   * What trim keeps is the slice `s[i..j]`; everything before `i` and from
   * `j` on is the trimmed byte.
   */
  lemma TrimSlice(s: string, c: char) returns (i: nat, j: nat)
    ensures i <= j <= |s| && Trim(s, c) == s[i..j]
    ensures forall k :: 0 <= k < i ==> s[k] == c
    ensures forall k :: j <= k < |s| ==> s[k] == c
  {
    var l := TrimLeft(s, c);
    var r := TrimRight(l, c);
    i := |s| - |l|;
    j := i + |r|;
    assert r == s[i..j];
    forall k | j <= k < |s|
      ensures s[k] == c
    {
      assert s[k] == l[k - i];
    }
  }

  /** `str_replace(c, '', s)`: every occurrence of `c` deleted, the other bytes kept. */
  function Delete(s: string, c: char): (r: string)
    ensures c !in r && |r| <= |s|
    ensures forall d :: d != c ==> multiset(r)[d] == multiset(s)[d]
    ensures c !in s ==> r == s
  {
    if s == [] then []
    else
      assert s == [s[0]] + s[1..];
      if s[0] == c then Delete(s[1..], c) else [s[0]] + Delete(s[1..], c)
  }

  /** Deleting from a concatenation deletes from each part. */
  lemma {:induction false} DeleteConcat(a: string, b: string, c: char)
    ensures Delete(a + b, c) == Delete(a, c) + Delete(b, c)
  {
    if a != [] {
      assert (a + b)[0] == a[0];
      assert (a + b)[1..] == a[1..] + b;
      DeleteConcat(a[1..], b, c);
    }
    else {
      assert a + b == b;
    }
  }

  /** A single byte is dropped when it is `c` and kept otherwise. */
  lemma DeleteSingle(x: char, c: char)
    ensures Delete([x], c) == if x == c then [] else [x]
  {
  }
}
