/** Concrete webjumps from the module's own default definitions. */
module Examples {
  import opened Wrappers
  import opened JsString
  import opened Registry
  import opened Matching
  import opened Resolve

  const MapsSite := "http://maps.google.com/?q="

  /** `define_webjump("maps", "http://maps.google.com/?q=%s")` on an empty
      table, then "maps paris" opens the search URL with the encoded query. */
  lemma {:induction false} MapsSearch(host: Host, partial: bool)
    ensures
      var reg := Define(host, Clear(), "maps", Template(MapsSite + Placeholder), NoOptions);
      GetUrlOrWebjump(host, reg, "maps paris", partial) == Ok(MapsSite + host.encode("paris"))
  {
    assert MapsSite + Placeholder + "" == MapsSite + Placeholder;
    assert "maps" + " " + "paris" == "maps paris";
    assert MapsSite + host.encode("paris") + "" == MapsSite + host.encode("paris");
    assert !AllWhitespace("paris") by { assert !IsJsWhitespace("paris"[0]); }
    NoPercentNoPlaceholder(MapsSite);
    DefineThenResolveTemplate(host, Clear(), "maps", MapsSite, "", NoOptions, "paris", partial);
  }

  /** `define_lastfm_webjumps(user)` registers "lastfm" without a placeholder:
      its argument becomes `false` and the bare name opens the user page. */
  lemma {:induction false} LastfmUserPage(host: Host, reg: Webjumps, user: string, partial: bool)
    requires !HasPlaceholder("http://www.last.fm/user/" + user)
    ensures
      var t := "http://www.last.fm/user/" + user;
      var reg' := Define(host, reg, "lastfm", Template(t), NoOptions);
      reg'["lastfm"].argument == ArgFalse && GetUrlOrWebjump(host, reg', "lastfm", partial) == Ok(t)
  {
    var t := "http://www.last.fm/user/" + user;
    DefineThenResolveFixed(host, reg, "lastfm", t, NoOptions, "", partial);
  }

  /** A typed argument is ignored by "lastfm": the user page opens all the same. */
  lemma {:induction false} LastfmIgnoresArgument(host: Host, reg: Webjumps, user: string, partial: bool)
    requires !HasPlaceholder("http://www.last.fm/user/" + user)
    ensures
      var t := "http://www.last.fm/user/" + user;
      var reg' := Define(host, reg, "lastfm", Template(t), NoOptions);
      GetUrlOrWebjump(host, reg', "lastfm anything", partial) == Ok(t)
  {
    var t := "http://www.last.fm/user/" + user;
    assert "lastfm" + " " + "anything" == "lastfm anything";
    DefineThenResolveFixed(host, reg, "lastfm", t, NoOptions, "anything", partial);
  }

  /** The options `define_delicious_webjumps(user)` passes for "delicious":
      only an alternative, the user's page. */
  function DeliciousOptions(user: string): (opts: Options)
    ensures Truthy(opts.alternative) && opts.argument == ArgUnset
  {
    Options(None, None, ArgUnset, Some("http://www.delicious.com/" + user))
  }

  /** `define_delicious_webjumps(user)` registers "delicious" with an
      alternative: its argument becomes `'optional'` and the bare name opens
      the user page. */
  lemma {:induction false} DeliciousBareName(host: Host, reg: Webjumps, user: string, partial: bool)
    requires !HasPlaceholder("http://www.delicious.com/" + user + "/")
    ensures
      var site := "http://www.delicious.com/" + user;
      var reg' := Define(host, reg, "delicious", Template(site + "/" + Placeholder), DeliciousOptions(user));
      && reg'["delicious"].argument == ArgOptional
      && GetUrlOrWebjump(host, reg', "delicious", partial) == Ok(site)
  {
    var site := "http://www.delicious.com/" + user;
    var t := site + "/" + Placeholder;
    var reg' := Define(host, reg, "delicious", Template(t), DeliciousOptions(user));
    assert HasPlaceholder(t) by {
      assert t == (site + "/") + Placeholder + "";
      SubstituteFirstPlaceholder(site + "/", "", "");
    }
    SplitJoin("delicious", "");
    AlternativeWithoutArgument(host, reg', "delicious", partial);
  }

  /** With an argument, "delicious" opens the user's page for that tag. */
  lemma {:induction false} DeliciousTag(host: Host, reg: Webjumps, user: string, partial: bool)
    requires !HasPlaceholder("http://www.delicious.com/" + user + "/")
    ensures
      var site := "http://www.delicious.com/" + user;
      var reg' := Define(host, reg, "delicious", Template(site + "/" + Placeholder), DeliciousOptions(user));
      GetUrlOrWebjump(host, reg', "delicious tag", partial) == Ok(site + "/" + host.encode("tag"))
  {
    var site := "http://www.delicious.com/" + user;
    assert (site + "/") + Placeholder + "" == site + "/" + Placeholder;
    assert "delicious" + " " + "tag" == "delicious tag";
    assert (site + "/") + host.encode("tag") + "" == site + "/" + host.encode("tag");
    assert !AllWhitespace("tag") by { assert !IsJsWhitespace("tag"[0]); }
    DefineThenResolveTemplate(host, reg, "delicious", site + "/", "", DeliciousOptions(user), "tag", partial);
  }

  /** The table holding "maps" and "map2" (both Google Maps searches). */
  function MapsAndMap2(host: Host): (reg: Webjumps)
    ensures reg.Keys == {"maps", "map2"} && WellKeyed(reg)
  {
    Define(host, Define(host, Clear(), "maps", Template(MapsSite + Placeholder), NoOptions),
           "map2", Template(MapsSite + Placeholder), NoOptions)
  }

  /** With "maps" and "map2" registered, "map" is an ambiguous prefix: it
      matches nothing and raises no error. */
  lemma {:induction false} MapIsAmbiguous(host: Host)
    ensures MatchWebjump(MapsAndMap2(host), "map", true) == Ok(None)
  {
    var reg := MapsAndMap2(host);
    SplitJoin("map", "");
    assert "map" <= "maps" && "map" <= "map2";
    TwoPrefixMatchesAreAmbiguous(reg, "map", "maps", "map2");
    AmbiguousPrefixIsNoMatch(reg, "map");
  }

  /** In the same table "maps" matches its own entry exactly, although
      "map" is ambiguous. */
  lemma {:induction false} MapsMatchesExactly(host: Host)
    ensures
      var reg := MapsAndMap2(host);
      MatchWebjump(reg, "maps x", true) == Ok(Some(Match(reg["maps"], "maps", Some("x"))))
  {
    var reg := MapsAndMap2(host);
    assert "maps" + " " + "x" == "maps x";
    assert !AllWhitespace("x") by { assert !IsJsWhitespace("x"[0]); }
    SplitJoin("maps", "x");
    ExactMatchWins(reg, "maps x", true);
  }

  /** With partial matching at its default (on) and "delicious" the only
      entry, the bare prefix "del" selects it and opens the user page. */
  lemma {:induction false} DeliciousPrefix(host: Host, user: string)
    requires !HasPlaceholder("http://www.delicious.com/" + user + "/")
    ensures
      var site := "http://www.delicious.com/" + user;
      var reg := Define(host, Clear(), "delicious", Template(site + "/" + Placeholder), DeliciousOptions(user));
      GetUrlOrWebjump(host, reg, "del", PartialMatchDefault) == Ok(site)
  {
    var site := "http://www.delicious.com/" + user;
    var t := site + "/" + Placeholder;
    var reg := Define(host, Clear(), "delicious", Template(t), DeliciousOptions(user));
    assert "del" <= "delicious";
    assert HasPlaceholder(t) by {
      assert t == (site + "/") + Placeholder + "";
      SubstituteFirstPlaceholder(site + "/", "", "");
    }
    SplitJoin("del", "");
    assert PrefixMatches(reg, "del") == {"delicious"};
    AlternativeWithoutArgument(host, reg, "del", PartialMatchDefault);
  }

  /** A function webjump registered without options requires an argument:
      typing its name alone raises the error, whose message names it. */
  lemma {:induction false} FunctionRequiresArgument(host: Host, reg: Webjumps, key: string, id: HandlerId, partial: bool)
    requires ' ' !in key
    ensures
      var r := GetUrlOrWebjump(host, Define(host, reg, key, Fn(id), NoOptions), key, partial);
      r == Err(MissingArgument(key))
      && ErrorMessage(r.error) == "Webjump " + key + " requires an argument."
  {
    SplitJoin(key, "");
  }
}
