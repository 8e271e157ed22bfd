/**
 * Worked examples of build_domain_name and get_cookie_domain on the
 * locale set {en, es, fr}.
 */
module DomainExamples {
  import opened Wrappers
  import opened PhpStrings
  import opened Domain

  const Locales: set<string> := {"en", "es", "fr"}

  lemma ExplodeTwo(a: string, b: string)
    requires '.' !in a && '.' !in b
    ensures Explode(a + "." + b) == [a, b]
  {
    ExplodeLabelDot(a, b);
    ExplodeLabel(b);
  }

  lemma ExplodeThree(a: string, b: string, c: string)
    requires '.' !in a && '.' !in b && '.' !in c
    ensures Explode(a + "." + b + "." + c) == [a, b, c]
  {
    assert a + "." + b + "." + c == a + "." + (b + "." + c);
    ExplodeLabelDot(a, b + "." + c);
    ExplodeTwo(b, c);
  }

  lemma ImplodeTwo(a: string, b: string)
    ensures Implode([a, b]) == a + "." + b
  {
    assert [a, b][1..] == [b];
  }

  lemma ImplodeThree(a: string, b: string, c: string)
    ensures Implode([a, b, c]) == a + "." + b + "." + c
  {
    assert [a, b, c][1..] == [b, c];
    ImplodeTwo(b, c);
    assert a + "." + (b + "." + c) == a + "." + b + "." + c;
  }

  lemma SplitIvisaCom()
    ensures Explode("ivisa.com") == ["ivisa", "com"]
  {
    ExplodeTwo("ivisa", "com");
    assert "ivisa" + "." + "com" == "ivisa.com";
  }

  lemma SplitIvisaTest()
    ensures Explode("ivisa.test") == ["ivisa", "test"]
  {
    ExplodeTwo("ivisa", "test");
    assert "ivisa" + "." + "test" == "ivisa.test";
  }

  lemma SplitEsIvisaCom()
    ensures Explode("es.ivisa.com") == ["es", "ivisa", "com"]
  {
    ExplodeThree("es", "ivisa", "com");
    assert "es" + "." + "ivisa" + "." + "com" == "es.ivisa.com";
  }

  lemma SplitFrIvisaCom()
    ensures Explode("fr.ivisa.com") == ["fr", "ivisa", "com"]
  {
    ExplodeThree("fr", "ivisa", "com");
    assert "fr" + "." + "ivisa" + "." + "com" == "fr.ivisa.com";
  }

  lemma SplitWwwIvisaCom()
    ensures Explode("www.ivisa.com") == ["www", "ivisa", "com"]
  {
    ExplodeThree("www", "ivisa", "com");
    assert "www" + "." + "ivisa" + "." + "com" == "www.ivisa.com";
  }

  /** English on a bare site adds www: ivisa.com gives www.ivisa.com. */
  lemma EnglishBareSite(isIp: string -> bool)
    requires !isIp("ivisa.com")
    ensures BuiltDomain("en", "ivisa.com", Locales, isIp) == Ok("www.ivisa.com")
  {
    var labels := ["ivisa", "com"];
    calc {
      BuiltDomain("en", "ivisa.com", Locales, isIp);
    == { SplitIvisaCom(); assert !IsLangOrWww(labels[0], Locales); }
      Ok(Implode(Relabel(labels, false, NewSubdomain("en", labels, false))));
    == { assert Lower("en") == "en"; assert WantsWww(labels, false); }
      Ok(Implode(["www", "ivisa", "com"]));
    == { ImplodeThree("www", "ivisa", "com"); assert "www" + "." + "ivisa" + "." + "com" == "www.ivisa.com"; }
      Ok("www.ivisa.com");
    }
  }

  /** No www on a test domain: ivisa.test stays as it is. */
  lemma EnglishTestSite(isIp: string -> bool)
    requires !isIp("ivisa.test")
    ensures BuiltDomain("EN", "ivisa.test", Locales, isIp) == Ok("ivisa.test")
  {
    var labels := ["ivisa", "test"];
    calc {
      BuiltDomain("EN", "ivisa.test", Locales, isIp);
    == { SplitIvisaTest(); assert !IsLangOrWww(labels[0], Locales); }
      Ok(Implode(Relabel(labels, false, NewSubdomain("EN", labels, false))));
    == { assert Lower("EN") == "en"; assert !WantsWww(labels, false); }
      Ok(Implode(["ivisa", "test"]));
    == { ImplodeTwo("ivisa", "test"); assert "ivisa" + "." + "test" == "ivisa.test"; }
      Ok("ivisa.test");
    }
  }

  /** A language subdomain is replaced: es.ivisa.com in French gives fr.ivisa.com. */
  lemma LanguageReplaced(isIp: string -> bool)
    requires !isIp("es.ivisa.com")
    ensures BuiltDomain("fr", "es.ivisa.com", Locales, isIp) == Ok("fr.ivisa.com")
  {
    var labels := ["es", "ivisa", "com"];
    calc {
      BuiltDomain("fr", "es.ivisa.com", Locales, isIp);
    == { SplitEsIvisaCom(); assert IsLangOrWww(labels[0], Locales); }
      Ok(Implode(Relabel(labels, true, NewSubdomain("fr", labels, true))));
    == { assert Lower("fr") == "fr"; }
      Ok(Implode(["fr", "ivisa", "com"]));
    == { ImplodeThree("fr", "ivisa", "com"); assert "fr" + "." + "ivisa" + "." + "com" == "fr.ivisa.com"; }
      Ok("fr.ivisa.com");
    }
  }

  /** English on a prefixed three-label site gives www: fr.ivisa.com gives www.ivisa.com. */
  lemma EnglishReplacesLanguage(isIp: string -> bool)
    requires !isIp("fr.ivisa.com")
    ensures BuiltDomain("en", "fr.ivisa.com", Locales, isIp) == Ok("www.ivisa.com")
  {
    var labels := ["fr", "ivisa", "com"];
    calc {
      BuiltDomain("en", "fr.ivisa.com", Locales, isIp);
    == { SplitFrIvisaCom(); assert IsLangOrWww(labels[0], Locales); }
      Ok(Implode(Relabel(labels, true, NewSubdomain("en", labels, true))));
    == { assert Lower("en") == "en"; assert WantsWww(labels, true); }
      Ok(Implode(["www", "ivisa", "com"]));
    == { ImplodeThree("www", "ivisa", "com"); assert "www" + "." + "ivisa" + "." + "com" == "www.ivisa.com"; }
      Ok("www.ivisa.com");
    }
  }

  /** www is replaced by a language: www.ivisa.com in Spanish gives es.ivisa.com. */
  lemma WwwReplaced(isIp: string -> bool)
    requires !isIp("www.ivisa.com")
    ensures BuiltDomain("es", "www.ivisa.com", Locales, isIp) == Ok("es.ivisa.com")
  {
    var labels := ["www", "ivisa", "com"];
    calc {
      BuiltDomain("es", "www.ivisa.com", Locales, isIp);
    == { SplitWwwIvisaCom(); assert IsLangOrWww(labels[0], Locales); }
      Ok(Implode(Relabel(labels, true, NewSubdomain("es", labels, true))));
    == { assert Lower("es") == "es"; }
      Ok(Implode(["es", "ivisa", "com"]));
    == { ImplodeThree("es", "ivisa", "com"); assert "es" + "." + "ivisa" + "." + "com" == "es.ivisa.com"; }
      Ok("es.ivisa.com");
    }
  }

  /** Cookie scope of fr.ivisa.com: ivisa.com, and the cookie domain .ivisa.com. */
  lemma CookieScope(isIp: string -> bool)
    requires !isIp("fr.ivisa.com") && !isIp("ivisa.com")
    ensures BuiltDomain("cookie", "fr.ivisa.com", Locales, isIp) == Ok("ivisa.com")
    ensures CookieDomain("fr.ivisa.com", Locales, isIp) == ".ivisa.com"
  {
    CookieScopeOfFr(isIp);
  }

  lemma CookieScopeOfFr(isIp: string -> bool)
    requires !isIp("fr.ivisa.com")
    ensures BuiltDomain("cookie", "fr.ivisa.com", Locales, isIp) == Ok("ivisa.com")
  {
    var labels := ["fr", "ivisa", "com"];
    calc {
      BuiltDomain("cookie", "fr.ivisa.com", Locales, isIp);
    == { SplitFrIvisaCom(); assert IsLangOrWww(labels[0], Locales); }
      Ok(Implode(Unprefixed(labels, true)));
    == { assert Unprefixed(labels, true) == ["ivisa", "com"]; }
      Ok(Implode(["ivisa", "com"]));
    == { ImplodeTwo("ivisa", "com"); assert "ivisa" + "." + "com" == "ivisa.com"; }
      Ok("ivisa.com");
    }
  }

  /** A three-byte mode is an error: 'eng' on ivisa.com. */
  lemma ThreeByteModeFails(isIp: string -> bool)
    requires !isIp("ivisa.com")
    ensures BuiltDomain("eng", "ivisa.com", Locales, isIp) == Err(InvalidDomainType)
  {
  }
}
