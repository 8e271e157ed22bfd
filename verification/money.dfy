/** clean_money_input: a user-typed amount with the dollar signs and commas taken out. */
module Money {
  import opened PhpStrings

  lemma {:induction false} TrimLeftKeepsOthers(s: string, c: char)
    ensures forall d :: d != c ==> multiset(TrimLeft(s, c))[d] == multiset(s)[d]
    decreases |s|
  {
    if s != [] && s[0] == c {
      TrimLeftKeepsOthers(s[1..], c);
      assert s == [s[0]] + s[1..];
    }
  }

  lemma {:induction false} TrimRightKeepsOthers(s: string, c: char)
    ensures forall d :: d != c ==> multiset(TrimRight(s, c))[d] == multiset(s)[d]
    decreases |s|
  {
    if s != [] && s[|s| - 1] == c {
      TrimRightKeepsOthers(s[..|s| - 1], c);
      assert s == s[..|s| - 1] + [s[|s| - 1]];
    }
  }

  /** `trim($money, '$')` then every comma deleted. */
  function CleanMoneyInput(money: string): (r: string)
    ensures ',' !in r
    ensures |r| <= |money|
  {
    Delete(Trim(money, '$'), ',')
  }

  /**
   * The cleaned amount is the input with its leading and trailing runs of
   * '$' cut off and then its commas deleted, in order; a '$' inside the
   * amount is kept.
   */
  lemma CleanIsTrimmedSliceWithoutCommas(money: string) returns (i: nat, j: nat)
    ensures i <= j <= |money|
    ensures forall k :: 0 <= k < i ==> money[k] == '$'
    ensures forall k :: j <= k < |money| ==> money[k] == '$'
    ensures i < j ==> money[i] != '$' && money[j - 1] != '$'
    ensures CleanMoneyInput(money) == Delete(money[i..j], ',')
  {
    i, j := TrimSlice(money, '$');
    if i < j {
      assert Trim(money, '$')[0] == money[i];
      assert Trim(money, '$')[j - i - 1] == money[j - 1];
    }
  }

  /** A dollar sign inside the amount survives: "1,$2" cleans to "1$2". */
  lemma CleanKeepsInnerDollar()
    ensures CleanMoneyInput("1,$2") == "1$2"
  {
    assert TrimLeft("1,$2", '$') == "1,$2";
    assert "1,$2"[..3] == "1,$";
    assert TrimRight("1,$2", '$') == "1,$2";
    assert "1,$2" == "1" + "," + "$2";
    DeleteConcat("1" + ",", "$2", ',');
    DeleteConcat("1", ",", ',');
    DeleteSingle('1', ',');
    DeleteSingle(',', ',');
    assert "$2" == "$" + "2";
    DeleteConcat("$", "2", ',');
    DeleteSingle('$', ',');
    DeleteSingle('2', ',');
  }

  /** Cleaning keeps every byte other than '$' and ',', as many times as it occurs. */
  lemma CleanKeepsDigits(money: string)
    ensures forall d :: d != '$' && d != ',' ==> multiset(CleanMoneyInput(money))[d] == multiset(money)[d]
  {
    TrimLeftKeepsOthers(money, '$');
    TrimRightKeepsOthers(TrimLeft(money, '$'), '$');
  }

  /** An amount with no comma and no dollar sign at either end is already clean. */
  lemma CleanFixesCleanAmounts(money: string)
    requires ',' !in money
    requires money == [] || (money[0] != '$' && money[|money| - 1] != '$')
    ensures CleanMoneyInput(money) == money
  {
  }

  /**
   * Cleaning twice can differ from cleaning once: a dollar sign behind a
   * leading comma survives the trim, and is trimmed only the second time.
   */
  lemma CleanNotIdempotent()
    ensures CleanMoneyInput(",$5") == "$5"
    ensures CleanMoneyInput("$5") == "5"
  {
    assert TrimLeft(",$5", '$') == ",$5";
    assert TrimRight(",$5", '$') == ",$5";
    assert Delete(",$5", ',') == "$5";
    assert "$5"[1..] == "5";
    assert TrimLeft("$5", '$') == "5";
  }
}
