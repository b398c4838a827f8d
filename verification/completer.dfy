/** The decision logic of `webjump_completer` in modules/webjump.js: name
    completion strings, and the choice between delegating to an argument
    completer, offering nothing, and completing webjump names. */
module Completer {
  import opened Wrappers
  import opened JsString
  import opened Registry
  import opened Matching

  /** One name-completion candidate: the text inserted and its description. */
  datatype Candidate = Candidate(text: string, description: string)

  /** What the completer produces for an input line and cursor position. */
  datatype Completion =
      /** Hand over to the entry's argument completer with the argument text,
          the cursor offset within it and the conservative flag; its results
          are nested under `nestPrefix`. */
    | Delegate(completer: CompleterId, arg: string, offset: int, conservative: bool, nestPrefix: string)
      /** An argument was typed but the entry has no completer: no completions. */
    | NoCompletions
      /** Complete webjump names with the base completer on the whole input. */
    | NameCompletion(input: string, pos: int, conservative: bool)

  /** `$get_string`: the key, followed by a space when the entry takes an
      argument (`true` or `'optional'`). */
  function CompletionString(d: Def): (r: string)
    ensures d.key <= r
    ensures r == d.key + " " <==> ArgTruthy(d.argument)
    ensures r == d.key <==> !ArgTruthy(d.argument)
  {
    d.key + (if ArgTruthy(d.argument) then " " else "")
  }

  /** `$get_description`: the description, or "" when it is absent. */
  function CompletionDescription(d: Def): (r: string)
    ensures d.description.Some? ==> r == d.description.value
    ensures d.description.None? ==> r == ""
  {
    match d.description
    case None => ""
    case Some(text) => text
  }

  /** The candidates offered to the base completer: one per registered entry. */
  function NameCandidates(reg: Webjumps): (r: map<string, Candidate>)
    ensures r.Keys == reg.Keys
    ensures forall k :: k in r ==>
      r[k].text == CompletionString(reg[k]) && r[k].description == CompletionDescription(reg[k])
  {
    map k | k in reg :: Candidate(CompletionString(reg[k]), CompletionDescription(reg[k]))
  }

  /** The completer's choice for `input` with the cursor at `pos`. The text
      up to the cursor is matched; a thrown missing-argument error counts as
      no match. */
  function Complete(reg: Webjumps, input: string, pos: int, conservative: bool, partial: bool): (r: Completion)
    ensures r.NameCompletion? ==> r == NameCompletion(input, pos, conservative)
    ensures r.NameCompletion? <==>
      var m := MatchWebjump(reg, SubstringTo(input, pos), partial);
      m.Err? || m.value.None? || m.value.value.arg.None?
    ensures !r.NameCompletion? ==>
      var sp := SplitInput(SubstringTo(input, pos));
      && sp.arg.Some?
      && Lookup(reg, sp.key, partial).Some?
      && (r.Delegate? <==> Lookup(reg, sp.key, partial).value.completer.Some?)
    ensures r.Delegate? ==>
      var sp := SplitInput(SubstringTo(input, pos));
      && r.arg == sp.arg.value
      && r.offset == pos - |sp.key| - 1
      && r.conservative == conservative
    // the selected entry's completer is called, and results nest under its FULL key
    ensures r.Delegate? ==>
      var d := Lookup(reg, SplitInput(SubstringTo(input, pos)).key, partial).value;
      r.completer == d.completer.value && r.nestPrefix == d.key + " "
    // inside the typed text, the offset is the cursor's position in the argument
    ensures r.Delegate? && 0 <= pos <= |input| ==> r.offset == |r.arg|
  {
    var str := SubstringTo(input, pos);
    match MatchWebjump(reg, str, partial)
    case Err(_) => NameCompletion(input, pos, conservative)
    case Ok(None) => NameCompletion(input, pos, conservative)
    case Ok(Some(m)) =>
      if m.arg.None? then NameCompletion(input, pos, conservative)
      else match m.def.completer
        case Some(c) => Delegate(c, m.arg.value, pos - |m.key| - 1, conservative, m.def.key + " ")
        case None => NoCompletions
  }

  /** Accepting a name completion leads back to the same entry: a name that
      takes no argument matches on its own, and one that takes an argument
      matches with whatever non-blank argument follows its trailing space. */
  lemma {:induction false} NameCompletionRoundTrip(reg: Webjumps, k: string, a: string, partial: bool)
    requires WellKeyed(reg) && k in reg && ' ' !in k
    ensures !ArgTruthy(reg[k].argument) ==>
      MatchWebjump(reg, CompletionString(reg[k]), partial) == Ok(Some(Match(reg[k], k, None)))
    ensures ArgTruthy(reg[k].argument) && !AllWhitespace(a) ==>
      MatchWebjump(reg, CompletionString(reg[k]) + a, partial) == Ok(Some(Match(reg[k], k, Some(a))))
  {
    SplitJoin(k, a);
  }

  /** With the cursor at the end of a completed name and an argument, an
      entry with an argument completer is asked to complete that argument
      with the cursor at its end, and its results are nested under the name. */
  lemma {:induction false} DelegatesAfterCompletedName(
    reg: Webjumps, k: string, a: string, conservative: bool, partial: bool)
    requires WellKeyed(reg) && k in reg && ' ' !in k
    requires ArgTruthy(reg[k].argument) && !AllWhitespace(a) && reg[k].completer.Some?
    ensures
      var input := CompletionString(reg[k]) + a;
      Complete(reg, input, |input|, conservative, partial)
        == Delegate(reg[k].completer.value, a, |a|, conservative, k + " ")
  {
    var input := CompletionString(reg[k]) + a;
    assert input == k + " " + a;
    assert SubstringTo(input, |input|) == input;
    NameCompletionRoundTrip(reg, k, a, partial);
  }

  /** A partial match delegates with an offset computed from the TYPED name
      while nesting under the entry's full key; without a completer nothing
      is offered. */
  lemma {:induction false} PartialMatchDelegation(
    reg: Webjumps, typed: string, k: string, a: string, pos: int, conservative: bool)
    requires WellKeyed(reg) && ' ' !in typed && typed !in reg && !AllWhitespace(a)
    requires PrefixMatches(reg, typed) == {k}
    requires pos >= |typed| + 1 + |a|
    ensures reg[k].completer.Some? ==>
      Complete(reg, typed + " " + a, pos, conservative, true)
        == Delegate(reg[k].completer.value, a, pos - |typed| - 1, conservative, k + " ")
    ensures reg[k].completer.None? ==>
      Complete(reg, typed + " " + a, pos, conservative, true) == NoCompletions
  {
    var input := typed + " " + a;
    assert SubstringTo(input, pos) == input;
    SplitJoin(typed, a);
    assert UniquePrefixKey(reg, typed) == Some(k);
    assert Lookup(reg, typed, true) == Some(reg[k]);
    assert MatchWebjump(reg, input, true) == Ok(Some(Match(reg[k], typed, Some(a))));
  }
}
