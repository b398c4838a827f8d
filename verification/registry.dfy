/** The webjump table of modules/webjump.js: definitions, the defaulting
    rules applied by `define_webjump`, the handler compiled from a string
    template, and `clear_webjumps`. */
module Registry {
  import opened Wrappers
  import opened JsString

  /** Identity of a JavaScript function handler; its behaviour lives in the host. */
  type HandlerId = nat
  /** Identity of an argument completer function. */
  type CompleterId = nat

  /** The `argument` property: left unset (`null`/`undefined`), `false`
      (no argument accepted), `true` (argument required) or `'optional'`. */
  datatype Arg = ArgUnset | ArgFalse | ArgTrue | ArgOptional

  /** A handler as given to `define_webjump` and as stored: a URL template
      (compiled by `make_handler`) or a function. */
  datatype Handler = Template(text: string) | Fn(id: HandlerId)

  /** The keyword arguments `$completer`, `$description`, `$argument`, `$alternative`. */
  datatype Options = Options(
    completer: Option<CompleterId>,
    description: Option<string>,
    argument: Arg,
    alternative: Option<string>)

  const NoOptions := Options(None, None, ArgUnset, None)

  /** One stored webjump definition. */
  datatype Def = Def(
    key: string,
    handler: Handler,
    completer: Option<CompleterId>,
    description: Option<string>,
    argument: Arg,
    alternative: Option<string>)

  /** The `webjumps` object: webjump name to definition. */
  type Webjumps = map<string, Def>

  /** Collaborators the module calls but does not define: `encodeURIComponent`,
      `url_path_trim`, and the bodies of function handlers (whose result may
      be `null`, modelled as None). */
  datatype Host = Host(
    encode: string -> string,
    pathTrim: string -> string,
    call: (HandlerId, Option<string>) -> Option<string>)

  const Placeholder := "%s"

  /** JavaScript truthiness of an optional string: present and non-empty. */
  predicate Truthy(s: Option<string>) {
    s.Some? && s.value != ""
  }

  /** JavaScript truthiness of the `argument` property: `true` and `'optional'`. */
  predicate ArgTruthy(a: Arg) {
    a == ArgTrue || a == ArgOptional
  }

  predicate HasPlaceholder(t: string) {
    IndexOf(t, Placeholder).Some?
  }

  /** A string handler whose template has no `%s`. */
  predicate IsFixedTemplate(h: Handler) {
    h.Template? && !HasPlaceholder(h.text)
  }

  /** Every entry is stored under its own `key` field. */
  predicate WellKeyed(reg: Webjumps) {
    forall k :: k in reg ==> reg[k].key == k
  }

  /** The function built by `make_handler`: the template unchanged when it
      has no `%s`, otherwise its first `%s` replaced by `e`. */
  function Substitute(t: string, e: string): (r: string)
    ensures IndexOf(t, Placeholder).None? ==> r == t
    ensures IndexOf(t, Placeholder).Some? ==>
      var b := IndexOf(t, Placeholder).value;
      && r == t[..b] + e + t[b + 2..]
      && |r| == |t| - 2 + |e|
  {
    match IndexOf(t, Placeholder)
    case None => t
    case Some(b) => t[..b] + e + t[b + 2..]
  }

  /** JavaScript's ToString of the handler argument: `null` becomes "null". */
  function JsToString(arg: Option<string>): (r: string)
    ensures arg.Some? ==> r == arg.value
    ensures arg.None? ==> r == "null"
  {
    if arg.None? then "null" else arg.value
  }

  /** Calling a stored handler with an argument (`match.handler(arg)`). */
  function Invoke(host: Host, h: Handler, arg: Option<string>): (r: Option<string>)
    // a compiled template always yields a URL, never null
    ensures h.Template? ==> r == Some(Substitute(h.text, host.encode(JsToString(arg))))
    ensures IsFixedTemplate(h) ==> r == Some(h.text)
    ensures h.Fn? ==> r == host.call(h.id, arg)
  {
    match h
    case Template(t) => Some(Substitute(t, host.encode(JsToString(arg))))
    case Fn(id) => host.call(id, arg)
  }

  /** The definition `define_webjump(key, handler, opts)` stores, after its
      defaulting of `argument` and `alternative`. */
  function NormalizeDef(host: Host, key: string, handler: Handler, opts: Options): (d: Def)
    ensures d.key == key && d.handler == handler
    ensures d.completer == opts.completer && d.description == opts.description
    // a template without %s accepts no argument, whatever was asked for
    ensures IsFixedTemplate(handler) ==> d.argument == ArgFalse
    // a function with neither argument nor alternative requires an argument
    ensures handler.Fn? && opts.argument == ArgUnset && opts.alternative.None? ==> d.argument == ArgTrue
    // a template with %s and no alternative gets the template trimmed to its site
    ensures handler.Template? && HasPlaceholder(handler.text) && opts.alternative.None?
      ==> d.alternative == Some(host.pathTrim(handler.text))
    // otherwise the alternative is the one given
    ensures !(handler.Template? && HasPlaceholder(handler.text)) || opts.alternative.Some?
      ==> d.alternative == opts.alternative
    // an explicit argument survives unless the template has no %s
    ensures opts.argument != ArgUnset && !IsFixedTemplate(handler) ==> d.argument == opts.argument
    // an unset argument becomes optional once there is a truthy alternative
    ensures opts.argument == ArgUnset && !IsFixedTemplate(handler) && Truthy(d.alternative)
      ==> d.argument == ArgOptional
    // the argument stays unset only when no rule applied
    ensures d.argument == ArgUnset <==>
      && opts.argument == ArgUnset
      && !IsFixedTemplate(handler)
      && !(handler.Fn? && opts.alternative.None?)
      && !Truthy(d.alternative)
    ensures Truthy(d.alternative) ==> d.argument != ArgUnset
  {
    var (argument, alternative) :=
      match handler
      case Fn(_) =>
        (if opts.argument == ArgUnset && opts.alternative.None? then ArgTrue else opts.argument,
         opts.alternative)
      case Template(t) =>
        if !HasPlaceholder(t) then (ArgFalse, opts.alternative)
        else if opts.alternative.None? then (opts.argument, Some(host.pathTrim(t)))
        else (opts.argument, opts.alternative);
    var argument' := if Truthy(alternative) && argument == ArgUnset then ArgOptional else argument;
    Def(key, handler, opts.completer, opts.description, argument', alternative)
  }

  /** `define_webjump`: store the normalized definition under `key`, replacing
      any earlier one (last write wins) and touching no other key. */
  function Define(host: Host, reg: Webjumps, key: string, handler: Handler, opts: Options): (r: Webjumps)
    ensures r.Keys == reg.Keys + {key}
    ensures r[key] == NormalizeDef(host, key, handler, opts)
    ensures forall k :: k in reg && k != key ==> r[k] == reg[k]
    ensures WellKeyed(reg) ==> WellKeyed(r)
  {
    reg[key := NormalizeDef(host, key, handler, opts)]
  }

  /** Registering a key twice keeps only the second definition: the table is
      as if the first registration had never happened. */
  lemma DefineTwiceLastWins(host: Host, reg: Webjumps, key: string,
                            h1: Handler, o1: Options, h2: Handler, o2: Options)
    ensures Define(host, Define(host, reg, key, h1, o1), key, h2, o2) == Define(host, reg, key, h2, o2)
  {
  }

  /** `clear_webjumps`: the table becomes empty. */
  function Clear(): (r: Webjumps)
    ensures |r| == 0 && WellKeyed(r)
  {
    map[]
  }

  /** A string without a percent sign holds no placeholder. */
  lemma NoPercentNoPlaceholder(t: string)
    requires '%' !in t
    ensures !HasPlaceholder(t)
  {
    forall j: nat | j + 2 <= |t|
      ensures !OccursAt(t, Placeholder, j)
    {
      assert t[j..j + 2][0] == t[j] != '%';
    }
  }

  /** Without `%s` the compiled handler returns the template for every argument. */
  lemma FixedTemplateIgnoresArgument(host: Host, t: string, arg: Option<string>)
    requires !HasPlaceholder(t)
    ensures Invoke(host, Template(t), arg) == Some(t)
  {
  }

  /** A template splits at its first `%s` into a prefix free of `%s`, the
      placeholder, and a verbatim rest. */
  lemma {:induction false} PlaceholderSplit(t: string, b: nat)
    requires IndexOf(t, Placeholder) == Some(b)
    ensures t == t[..b] + Placeholder + t[b + 2..]
    ensures !HasPlaceholder(t[..b])
  {
    var p := t[..b];
    if HasPlaceholder(p) {
      var j := IndexOf(p, Placeholder).value;
      assert p[j..j + 2] == t[j..j + 2];
      assert OccursAt(t, Placeholder, j);
      assert false;
    }
    assert t[b..b + 2] == Placeholder;
  }

  /** In `p + "%s" + q` with no `%s` in `p`, the first placeholder is the one
      after `p`: only it is replaced, and `p` and `q` (which may hold further
      `%s`) stay verbatim. */
  lemma {:induction false} SubstituteFirstPlaceholder(p: string, q: string, e: string)
    requires !HasPlaceholder(p)
    ensures IndexOf(p + Placeholder + q, Placeholder) == Some(|p|)
    ensures Substitute(p + Placeholder + q, e) == p + e + q
  {
    var t := p + Placeholder + q;
    assert OccursAt(t, Placeholder, |p|) by {
      assert t[|p|..|p| + 2] == Placeholder;
    }
    forall j: nat | j < |p|
      ensures !OccursAt(t, Placeholder, j)
    {
      if j + 1 < |p| {
        assert p[j..j + 2] == t[j..j + 2];
        assert !OccursAt(p, Placeholder, j);
      } else {
        assert t[j..j + 2][1] == t[j + 1] == '%';
      }
    }
    var b := IndexOf(t, Placeholder);
    assert b == Some(|p|) by {
      if b.None? {
        assert false;
      } else if b.value < |p| {
        assert false;
      } else if b.value > |p| {
        assert false;
      }
    }
    assert t[..|p|] == p;
    assert t[|p| + 2..] == q;
  }
}
