/**
 * build_domain_name and get_cookie_domain: rewriting a hostname for a
 * language subdomain, or for the cookie scope.
 *
 * The hostname, the set of locale codes (the keys of the locale catalogue)
 * and PHP's FILTER_VALIDATE_IP test are explicit parameters: `isIp` stands
 * for the IP-address grammar, which this model keeps abstract.
 */
module Domain {
  import opened Wrappers
  import opened PhpStrings

  /** The one exception build_domain_name throws: 'Invalid domain type'. */
  datatype DomainError = InvalidDomainType

  /**
   * The first label is a language subdomain or `www`. Both comparisons are
   * strict and byte for byte: `WWW` or `Www` counts only if it is itself a
   * locale code.
   */
  function IsLangOrWww(first: string, locales: set<string>): (b: bool)
    ensures b <==> first in locales + {"www"}
    ensures Lower(first) == "www" && first != "www" ==> (b <==> first in locales)
  {
    first in locales || first == "www"
  }

  /** The last label of a hostname. */
  function LastLabel(labels: seq<string>): string
    requires labels != []
  {
    labels[|labels| - 1]
  }

  /**
   * English asks for `www` only on a bare site: two labels, or three of which
   * the first is a language subdomain or `www`; and never on a `test` domain.
   * Put differently: exactly two labels are left once the prefix is dropped.
   */
  function WantsWww(labels: seq<string>, prefixed: bool): (b: bool)
    requires labels != []
    ensures b <==> |Unprefixed(labels, prefixed)| == 2 && LastLabel(labels) != "test"
  {
    ((prefixed && |labels| == 3) || (!prefixed && |labels| == 2)) && LastLabel(labels) != "test"
  }

  /** The subdomain a two-byte mode asks for; None means no subdomain at all. */
  function NewSubdomain(mode: string, labels: seq<string>, prefixed: bool): (sub: Option<string>)
    requires labels != []
    ensures Lower(mode) != "en" ==> sub == Some(Lower(mode))
    ensures Lower(mode) == "en" ==> (sub == Some("www") <==> WantsWww(labels, prefixed))
    ensures Lower(mode) == "en" && !WantsWww(labels, prefixed) ==> sub == None
  {
    var code := Lower(mode);
    if code != "en" then Some(code)
    else if WantsWww(labels, prefixed) then Some("www")
    else None
  }

  /** The labels after the leading language subdomain or `www`, if any. */
  function Unprefixed(labels: seq<string>, prefixed: bool): (rest: seq<string>)
    requires labels != []
    ensures prefixed ==> |rest| == |labels| - 1 && rest == labels[1..]
    ensures !prefixed ==> rest == labels
  {
    if prefixed then labels[1..] else labels
  }

  /**
   * Put `sub` in place of the prefix: replace it when there is one, prepend
   * otherwise; with no subdomain, only drop the prefix.
   */
  function Relabel(labels: seq<string>, prefixed: bool, sub: Option<string>): (out: seq<string>)
    requires labels != []
    ensures out == (if sub.Some? then [sub.value] else []) + Unprefixed(labels, prefixed)
  {
    match sub
    case Some(s) => if prefixed then labels[0 := s] else [s] + labels
    case None => if prefixed then labels[1..] else labels
  }

  /**
   * What build_domain_name returns for `mode` and `hostname`: the hostname
   * itself when it is an IP address, the relabelled hostname for a two-byte
   * mode, the unprefixed hostname for 'cookie', and an error otherwise.
   */
  function BuiltDomain(mode: string, hostname: string, locales: set<string>, isIp: string -> bool)
    : (r: Result<string, DomainError>)
    ensures isIp(hostname) ==> r == Ok(hostname)
    ensures r.Err? <==> !isIp(hostname) && |mode| != 2 && mode != "cookie"
  {
    if isIp(hostname) then Ok(hostname)
    else
      var labels := Explode(hostname);
      var prefixed := IsLangOrWww(labels[0], locales);
      if |mode| == 2 then Ok(Implode(Relabel(labels, prefixed, NewSubdomain(mode, labels, prefixed))))
      else if mode == "cookie" then Ok(Implode(Unprefixed(labels, prefixed)))
      else Err(InvalidDomainType)
  }

  /**
   * build_domain_name: split the hostname, then rewrite the label list in
   * place, as the PHP code does with `$parts`.
   */
  method BuildDomainName(mode: string, hostname: string, locales: set<string>, isIp: string -> bool)
    returns (r: Result<string, DomainError>)
    ensures r == BuiltDomain(mode, hostname, locales, isIp)
  {
    if isIp(hostname) {
      return Ok(hostname);
    }
    var parts := Explode(hostname);
    var isSubdomainLangOrWww := parts[0] in locales || parts[0] == "www";
    if |mode| == 2 {
      var newSub := Some(Lower(mode));
      if newSub == Some("en") {
        newSub := None;
        if (isSubdomainLangOrWww && |parts| == 3) || (!isSubdomainLangOrWww && |parts| == 2) {
          if parts[|parts| - 1] != "test" {
            newSub := Some("www");
          }
        }
      }
      if isSubdomainLangOrWww {
        if newSub.Some? {
          parts := parts[0 := newSub.value];
        } else {
          parts := parts[1..];
        }
      } else if newSub.Some? {
        parts := [newSub.value] + parts;
      }
    } else if mode == "cookie" {
      if isSubdomainLangOrWww {
        parts := parts[1..];
      }
    } else {
      return Err(InvalidDomainType);
    }
    r := Ok(Implode(parts));
  }

  /**
   * get_cookie_domain: the cookie-mode domain, with a leading dot unless that
   * domain is itself an IP address.
   */
  function CookieDomain(hostname: string, locales: set<string>, isIp: string -> bool): (d: string)
    ensures isIp(hostname) ==> d == hostname
  {
    var tld := BuiltDomain("cookie", hostname, locales, isIp).value;
    if isIp(tld) then tld else "." + tld
  }

  // ---------------------------------------------------------------------
  // Properties of build_domain_name
  // ---------------------------------------------------------------------

  /** Cookie mode keeps a hostname without prefix as it is, and otherwise drops exactly its first label. */
  lemma CookieModeDropsPrefix(hostname: string, locales: set<string>, isIp: string -> bool)
    requires !isIp(hostname)
    ensures var labels := Explode(hostname);
            var r := BuiltDomain("cookie", hostname, locales, isIp);
            && r.Ok?
            && (!IsLangOrWww(labels[0], locales) ==> r.value == hostname)
            && (IsLangOrWww(labels[0], locales) && |labels| == 1 ==> r.value == "")
            && (IsLangOrWww(labels[0], locales) && |labels| > 1 ==> Explode(r.value) == labels[1..])
  {
    var labels := Explode(hostname);
    ImplodeExplode(hostname);
    if |labels| > 1 {
      ExplodeNoDots(hostname);
      ExplodeImplode(labels[1..]);
    }
  }

  /**
   * A two-byte mode other than English puts its lower-cased code as first
   * label, in place of a prefix or in front of an unprefixed hostname; all
   * other labels stay, in order.
   */
  lemma LocaleModeSetsFirstLabel(mode: string, hostname: string, locales: set<string>, isIp: string -> bool)
    requires !isIp(hostname) && |mode| == 2 && Lower(mode) != "en" && '.' !in mode
    ensures var labels := Explode(hostname);
            var prefixed := IsLangOrWww(labels[0], locales);
            var r := BuiltDomain(mode, hostname, locales, isIp);
            && r.Ok?
            && Explode(r.value) == [Lower(mode)] + Unprefixed(labels, prefixed)
            && |Explode(r.value)| == (if prefixed then |labels| else |labels| + 1)
  {
    var labels := Explode(hostname);
    var prefixed := IsLangOrWww(labels[0], locales);
    var out := [Lower(mode)] + Unprefixed(labels, prefixed);
    LowerKeepsDots(mode);
    ExplodeNoDots(hostname);
    assert forall i :: 0 <= i < |out| ==> '.' !in out[i] by {
      forall i | 0 <= i < |out| ensures '.' !in out[i] {
        if i > 0 {
          assert out[i] == labels[if prefixed then i else i - 1];
        }
      }
    }
    ExplodeImplode(out);
  }

  /**
   * English: `www` becomes the first label exactly on a bare non-test site;
   * otherwise a prefix is dropped and nothing is added.
   */
  lemma EnglishModeRule(mode: string, hostname: string, locales: set<string>, isIp: string -> bool)
    requires !isIp(hostname) && mode in {"en", "En", "eN", "EN"}
    ensures var labels := Explode(hostname);
            var prefixed := IsLangOrWww(labels[0], locales);
            var r := BuiltDomain(mode, hostname, locales, isIp);
            && r.Ok?
            && (WantsWww(labels, prefixed) ==> Explode(r.value) == ["www"] + Unprefixed(labels, prefixed))
            && (!WantsWww(labels, prefixed) && !prefixed ==> r.value == hostname)
            && (!WantsWww(labels, prefixed) && prefixed && |labels| > 1 ==> Explode(r.value) == labels[1..])
            && (!WantsWww(labels, prefixed) && prefixed && |labels| == 1 ==> r.value == "")
  {
    var labels := Explode(hostname);
    var prefixed := IsLangOrWww(labels[0], locales);
    LowerIsEn(mode);
    if WantsWww(labels, prefixed) {
      var out := ["www"] + Unprefixed(labels, prefixed);
      ExplodeNoDots(hostname);
      assert forall i :: 0 <= i < |out| ==> '.' !in out[i] by {
        forall i | 0 <= i < |out| ensures '.' !in out[i] {
          if i > 0 {
            assert out[i] == labels[if prefixed then i else i - 1];
          }
        }
      }
      ExplodeImplode(out);
    } else if !prefixed {
      ImplodeExplode(hostname);
    } else if |labels| > 1 {
      ExplodeNoDots(hostname);
      ExplodeImplode(labels[1..]);
    }
  }

  /** Any mode other than 'cookie' and two bytes is an error on every non-IP hostname. */
  lemma InvalidModeFails(mode: string, hostname: string, locales: set<string>, isIp: string -> bool)
    requires |mode| != 2 && mode != "cookie"
    ensures BuiltDomain(mode, hostname, locales, isIp) ==
            if isIp(hostname) then Ok(hostname) else Err(InvalidDomainType)
  {
  }

  /**
   * Cookie mode is idempotent unless the hostname carries two prefixes in a
   * row (a language subdomain or `www` followed by another).
   */
  lemma CookieModeIdempotentOnSinglePrefix(hostname: string, locales: set<string>, isIp: string -> bool)
    requires var labels := Explode(hostname);
             !(IsLangOrWww(labels[0], locales) && |labels| > 1 && IsLangOrWww(labels[1], locales))
    ensures var once := BuiltDomain("cookie", hostname, locales, isIp).value;
            BuiltDomain("cookie", once, locales, isIp) == Ok(once)
  {
    var labels := Explode(hostname);
    var once := BuiltDomain("cookie", hostname, locales, isIp).value;
    if !isIp(hostname) && !isIp(once) {
      CookieModeDropsPrefix(hostname, locales, isIp);
      if !IsLangOrWww(labels[0], locales) {
        CookieModeDropsPrefix(once, locales, isIp);
      } else if |labels| > 1 {
        assert Explode(once)[0] == labels[1];
        CookieModeDropsPrefix(once, locales, isIp);
      } else {
        assert once == "";
        assert Explode(once) == [""];
        assert !IsLangOrWww("", locales) ==> BuiltDomain("cookie", once, locales, isIp) == Ok(once);
        if IsLangOrWww("", locales) {
          assert Unprefixed(Explode(once), true) == [];
        }
      }
    }
  }

  lemma ExplodeThreeLabels()
    ensures Explode("es.x.com") == ["es", "x", "com"]
  {
    var ls := ["es", "x", "com"];
    assert ls[1..] == ["x", "com"] && ls[1..][1..] == ["com"];
    assert Implode(["x", "com"]) == "x.com";
    assert Implode(ls) == "es.x.com";
    ExplodeImplode(ls);
  }

  lemma ExplodeFourLabels()
    ensures Explode("fr.es.x.com") == ["fr", "es", "x", "com"]
  {
    var ls := ["fr", "es", "x", "com"];
    ExplodeThreeLabels();
    ImplodeExplode("es.x.com");
    assert ls[1..] == ["es", "x", "com"];
    ImplodeCons(ls);
    assert Implode(ls) == "fr.es.x.com";
    ExplodeImplode(ls);
  }

  /** With two prefixes in a row cookie mode is not idempotent: fr.es.x.com, es.x.com, x.com. */
  lemma CookieModeNotIdempotent(isIp: string -> bool)
    requires !isIp("fr.es.x.com") && !isIp("es.x.com")
    ensures BuiltDomain("cookie", "fr.es.x.com", {"fr", "es"}, isIp) == Ok("es.x.com")
    ensures BuiltDomain("cookie", "es.x.com", {"fr", "es"}, isIp) == Ok("x.com")
  {
    ExplodeFourLabels();
    ExplodeThreeLabels();
    assert ["fr", "es", "x", "com"][1..] == ["es", "x", "com"];
    assert ["es", "x", "com"][1..] == ["x", "com"];
    ImplodeExplode("es.x.com");
    assert Implode(["x", "com"]) == "x.com";
  }

  // ---------------------------------------------------------------------
  // Properties of get_cookie_domain
  // ---------------------------------------------------------------------

  /** `s` ends `t`. */
  predicate IsSuffix(s: string, t: string)
  {
    |s| <= |t| && s == t[|t| - |s|..]
  }

  lemma SuffixOfConcat(a: string, b: string)
    ensures IsSuffix(b, a + b)
  {
    assert (a + b)[|a|..] == b;
  }

  /**
   * Unless it is an IP address, the cookie domain is a dot followed by the
   * hostname or by what follows its first label: a suffix of "." + hostname,
   * so the cookie covers the host. The exception is a hostname that is a
   * lone prefix label, such as `www`, whose cookie domain is ".".
   */
  lemma CookieDomainCoversHost(hostname: string, locales: set<string>, isIp: string -> bool)
    requires !isIp(hostname)
    ensures var tld := BuiltDomain("cookie", hostname, locales, isIp).value;
            var d := CookieDomain(hostname, locales, isIp);
            var lone := |Explode(hostname)| == 1 && IsLangOrWww(hostname, locales);
            && (isIp(tld) ==> d == tld)
            && (!isIp(tld) ==> d == "." + tld)
            && (!isIp(tld) && lone ==> d == ".")
            && (!isIp(tld) && !lone ==> IsSuffix(d, "." + hostname))
  {
    var labels := Explode(hostname);
    var tld := BuiltDomain("cookie", hostname, locales, isIp).value;
    ImplodeExplode(hostname);
    if IsLangOrWww(labels[0], locales) {
      if |labels| > 1 {
        ImplodeCons(labels);
        assert "." + hostname == ("." + labels[0]) + ("." + tld);
        SuffixOfConcat("." + labels[0], "." + tld);
      } else {
        assert hostname == labels[0];
        assert tld == "";
      }
    } else {
      SuffixOfConcat("", "." + hostname);
    }
  }
}
