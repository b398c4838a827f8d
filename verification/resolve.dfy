/** `get_webjump` and `get_url_or_webjump` of modules/webjump.js: turn an
    input line into a URL. */
module Resolve {
  import opened Wrappers
  import opened JsString
  import opened Registry
  import opened Matching

  /** `get_webjump(s)`: Ok(None) for `null`, the alternative when no argument
      was typed and the alternative is truthy, otherwise the handler's result. */
  function GetWebjump(host: Host, reg: Webjumps, s: string, partial: bool): (r: Result<Option<string>, Error>)
    ensures r.Err? <==> MatchWebjump(reg, s, partial).Err?
    ensures MatchWebjump(reg, s, partial) == Ok(None) ==> r == Ok(None)
    // the URL comes from the entry the typed name selects, exactly or as a unique prefix
    ensures Lookup(reg, SplitInput(s).key, partial).Some? && r.Ok? ==>
      var d := Lookup(reg, SplitInput(s).key, partial).value;
      r.value == if SplitInput(s).arg.None? && Truthy(d.alternative) then Some(d.alternative.value)
                 else Invoke(host, d.handler, SplitInput(s).arg)
  {
    match MatchWebjump(reg, s, partial)
    case Err(e) => Err(e)
    case Ok(None) => Ok(None)
    case Ok(Some(m)) =>
      if m.arg.None? && Truthy(m.def.alternative) then Ok(Some(m.def.alternative.value))
      else Ok(Invoke(host, m.def.handler, m.arg))
  }

  /** `get_url_or_webjump(s)`: the webjump's URL, or the input itself when
      there is none. */
  function GetUrlOrWebjump(host: Host, reg: Webjumps, s: string, partial: bool): (r: Result<string, Error>)
    ensures r.Err? <==> MatchWebjump(reg, s, partial).Err?
    ensures r.Ok? ==> r.value == s || GetWebjump(host, reg, s, partial) == Ok(Some(r.value))
    ensures GetWebjump(host, reg, s, partial) == Ok(None) ==> r == Ok(s)
    ensures GetWebjump(host, reg, s, partial).Ok? && GetWebjump(host, reg, s, partial).value.Some?
      ==> r == Ok(GetWebjump(host, reg, s, partial).value.value)
  {
    match GetWebjump(host, reg, s, partial)
    case Err(e) => Err(e)
    case Ok(None) => Ok(s)
    case Ok(Some(url)) => Ok(url)
  }

  /** A name that is neither registered nor (with partial matching on) a
      unique prefix of a registered name passes through unchanged. */
  lemma UnknownNamePassesThrough(host: Host, reg: Webjumps, s: string, partial: bool)
    requires SplitInput(s).key !in reg
    requires !partial || |PrefixMatches(reg, SplitInput(s).key)| != 1
    ensures GetUrlOrWebjump(host, reg, s, partial) == Ok(s)
  {
  }

  /** Once the table is cleared every input passes through unchanged. */
  lemma ClearedTablePassesThrough(host: Host, s: string, partial: bool)
    ensures GetUrlOrWebjump(host, Clear(), s, partial) == Ok(s)
  {
    assert PrefixMatches(Clear(), SplitInput(s).key) == {};
  }

  /** Without an argument, the selected entry's truthy alternative is
      returned in place of the handler, whatever the handler is, for an exact
      name and a unique prefix alike; but an entry whose argument is `true`
      throws first, alternative or not. */
  lemma AlternativeWithoutArgument(host: Host, reg: Webjumps, s: string, partial: bool)
    requires Lookup(reg, SplitInput(s).key, partial).Some?
    requires SplitInput(s).arg.None?
    requires Truthy(Lookup(reg, SplitInput(s).key, partial).value.alternative)
    ensures
      var d := Lookup(reg, SplitInput(s).key, partial).value;
      GetWebjump(host, reg, s, partial) ==
        if d.argument == ArgTrue then Err(MissingArgument(SplitInput(s).key))
        else Ok(Some(d.alternative.value))
  {
  }

  /** Without an argument and without a truthy alternative, the selected
      entry's handler receives `null`. */
  lemma HandlerWithoutArgument(host: Host, reg: Webjumps, s: string, partial: bool)
    requires Lookup(reg, SplitInput(s).key, partial).Some?
    requires SplitInput(s).arg.None?
    requires !Truthy(Lookup(reg, SplitInput(s).key, partial).value.alternative)
    ensures
      var d := Lookup(reg, SplitInput(s).key, partial).value;
      GetWebjump(host, reg, s, partial) ==
        if d.argument == ArgTrue then Err(MissingArgument(SplitInput(s).key))
        else Ok(Invoke(host, d.handler, None))
  {
  }

  /** After `define_webjump(key, p + "%s" + q)`, typing the name, a space and
      a non-blank argument gives the template with its first placeholder
      replaced by the encoded argument. */
  lemma {:induction false} DefineThenResolveTemplate(
    host: Host, reg: Webjumps, key: string, p: string, q: string, opts: Options, a: string, partial: bool)
    requires ' ' !in key && !HasPlaceholder(p) && !AllWhitespace(a)
    ensures GetWebjump(host, Define(host, reg, key, Template(p + Placeholder + q), opts), key + " " + a, partial)
      == Ok(Some(p + host.encode(a) + q))
    ensures GetUrlOrWebjump(host, Define(host, reg, key, Template(p + Placeholder + q), opts), key + " " + a, partial)
      == Ok(p + host.encode(a) + q)
  {
    SplitJoin(key, a);
    SubstituteFirstPlaceholder(p, q, host.encode(a));
  }

  /** A template without `%s` resolves to itself with or without an argument
      (an argument is ignored), unless a truthy alternative stands in for a
      missing argument. */
  lemma {:induction false} DefineThenResolveFixed(
    host: Host, reg: Webjumps, key: string, t: string, opts: Options, a: string, partial: bool)
    requires ' ' !in key && !HasPlaceholder(t)
    requires !Truthy(opts.alternative) || !AllWhitespace(a)
    ensures GetWebjump(host, Define(host, reg, key, Template(t), opts), key + " " + a, partial) == Ok(Some(t))
    ensures GetUrlOrWebjump(host, Define(host, reg, key, Template(t), opts), key + " " + a, partial) == Ok(t)
    ensures !Truthy(opts.alternative) ==>
      GetWebjump(host, Define(host, reg, key, Template(t), opts), key, partial) == Ok(Some(t))
    ensures !Truthy(opts.alternative) ==>
      GetUrlOrWebjump(host, Define(host, reg, key, Template(t), opts), key, partial) == Ok(t)
  {
    SplitJoin(key, a);
  }

  /** A template with `%s` reached without an argument and without a truthy
      alternative (and not required) receives JavaScript's `null` as its
      argument, which `encodeURIComponent` turns into "null". */
  lemma {:induction false} NullArgumentReachesTemplate(
    host: Host, reg: Webjumps, key: string, p: string, q: string, partial: bool)
    requires ' ' !in key && key in reg
    requires reg[key].handler == Template(p + Placeholder + q) && !HasPlaceholder(p)
    requires !Truthy(reg[key].alternative) && reg[key].argument != ArgTrue
    ensures GetWebjump(host, reg, key, partial) == Ok(Some(p + host.encode("null") + q))
  {
    SplitJoin(key, "");
    SubstituteFirstPlaceholder(p, q, host.encode("null"));
  }
}
