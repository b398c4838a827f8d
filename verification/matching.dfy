/** `match_webjump` of modules/webjump.js: split the input at its first
    space, look the name up exactly or as a unique prefix, and raise the
    missing-argument error. */
module Matching {
  import opened Wrappers
  import opened JsString
  import opened Registry

  /** The default of the `webjump_partial_match` variable. */
  const PartialMatchDefault := true

  /** The typed name and the argument (None for `null`) of an input line. */
  datatype Split = Split(key: string, arg: Option<string>)

  /** A successful match: the definition, the key as TYPED (which may be a
      mere prefix of the definition's key) and the argument. */
  datatype Match = Match(def: Def, key: string, arg: Option<string>)

  /** The interactive error thrown when a required argument is missing. */
  datatype Error = MissingArgument(key: string)

  /** The text of the interactive error: it names the key as typed. */
  function ErrorMessage(e: Error): (r: string)
    ensures |r| == 8 + |e.key| + 22
    ensures "Webjump " <= r
    ensures r[8..8 + |e.key|] == e.key
    ensures r[8 + |e.key|..] == " requires an argument."
  {
    "Webjump " + e.key + " requires an argument."
  }

  /** The input is split at its first space: the name before it, and the text
      after it as the argument unless that text is blank. */
  function SplitInput(s: string): (r: Split)
    ensures ' ' !in r.key
    ensures r.key <= s
    ensures |r.key| == |s| ==> r.arg.None?
    ensures |r.key| < |s| ==>
      (s[|r.key|] == ' ' && (r.arg.None? <==> AllWhitespace(s[|r.key| + 1..])))
    ensures r.arg.Some? ==> s == r.key + " " + r.arg.value
  {
    match IndexOf(s, " ")
    case None =>
      assert forall i :: 0 <= i < |s| ==> !OccursAt(s, " ", i) ==> s[i] != ' ' by {
        forall i | 0 <= i < |s| && !OccursAt(s, " ", i) ensures s[i] != ' ' {
          assert s[i..i + 1] == [s[i]];
        }
      }
      Split(s, None)
    case Some(sp) =>
      var rest := s[sp + 1..];
      assert s[sp..sp + 1] == " ";
      assert forall i :: 0 <= i < sp ==> !OccursAt(s, " ", i) ==> s[i] != ' ' by {
        forall i | 0 <= i < sp && !OccursAt(s, " ", i) ensures s[i] != ' ' {
          assert s[i..i + 1] == [s[i]];
        }
      }
      assert s == s[..sp] + " " + rest;
      Split(s[..sp], if AllWhitespace(rest) then None else Some(rest))
  }

  /** Typing a space-free name, a space and an argument splits back into
      that name and that argument (None when the argument is blank). */
  lemma {:induction false} SplitJoin(key: string, a: string)
    requires ' ' !in key
    ensures SplitInput(key) == Split(key, None)
    ensures SplitInput(key + " " + a) == Split(key, if AllWhitespace(a) then None else Some(a))
  {
    var s := key + " " + a;
    assert s[|key|] == ' ';
    assert s[..|key|] == key;
    assert s[|key| + 1..] == a;
  }

  /** The registered keys that pass the partial-match test
      `k.substring(0, key.length) == key`. */
  function PrefixMatches(reg: Webjumps, key: string): (r: set<string>)
    ensures r <= reg.Keys
    ensures forall k :: k in r <==> k in reg && key <= k
  {
    var r := set k | k in reg && SubstringTo(k, |key|) == key;
    assert forall k :: k in r <==> k in reg && key <= k by {
      forall k ensures SubstringTo(k, |key|) == key <==> key <= k {
        SubstringPrefixTest(k, key);
      }
    }
    r
  }

  lemma SingletonElement<T>(S: set<T>)
    requires |S| == 1
    ensures forall a, b :: a in S && b in S ==> a == b
  {
    var x :| x in S;
    assert |S - {x}| == 0;
    assert S == {x};
  }

  /** The registered key that `key` is a unique prefix of, if there is one. */
  function UniquePrefixKey(reg: Webjumps, key: string): (r: Option<string>)
    ensures r.Some? <==> |PrefixMatches(reg, key)| == 1
    ensures r.Some? ==> PrefixMatches(reg, key) == {r.value}
  {
    var S := PrefixMatches(reg, key);
    if |S| == 1 then
      SingletonElement(S);
      var k :| k in S;
      Some(k)
    else None
  }

  /** The definition the typed name selects: the exact entry if there is one,
      else (when partial matching is on) the entry it is a unique prefix of. */
  function Lookup(reg: Webjumps, key: string, partial: bool): (r: Option<Def>)
    ensures key in reg ==> r == Some(reg[key])
    ensures key !in reg && !partial ==> r.None?
    ensures key !in reg && partial ==> (r.Some? <==> |PrefixMatches(reg, key)| == 1)
    ensures key !in reg && partial && r.Some? ==> r.value == reg[UniquePrefixKey(reg, key).value]
    ensures WellKeyed(reg) && key !in reg && r.Some? ==> PrefixMatches(reg, key) == {r.value.key}
    ensures r.Some? ==> r.value in reg.Values
  {
    if key in reg then Some(reg[key])
    else if !partial then None
    else match UniquePrefixKey(reg, key)
      case None => None
      case Some(k) => Some(reg[k])
  }

  /** `match_webjump(s)` with `webjump_partial_match` as `partial`:
      Ok(None) for null, Ok(Some(m)) for `[match, key, arg]`, Err for the
      thrown interactive error. */
  function MatchWebjump(reg: Webjumps, s: string, partial: bool): (r: Result<Option<Match>, Error>)
    ensures r.Err? ==> r.error == MissingArgument(SplitInput(s).key) && SplitInput(s).arg.None?
    ensures r.Ok? && r.value.Some? ==>
      && r.value.value.key == SplitInput(s).key
      && r.value.value.arg == SplitInput(s).arg
      && r.value.value.def in reg.Values
    // the definition is the one the typed name selects
    ensures r.Ok? && r.value.Some? ==> Some(r.value.value.def) == Lookup(reg, SplitInput(s).key, partial)
  {
    var sp := SplitInput(s);
    match Lookup(reg, sp.key, partial)
    case None => Ok(None)
    case Some(d) =>
      if sp.arg.None? && d.argument == ArgTrue then Err(MissingArgument(sp.key))
      else Ok(Some(Match(d, sp.key, sp.arg)))
  }

  /** The keys among `keys` that start with the typed name. */
  ghost function MatchesAmong(keys: set<string>, key: string): set<string> {
    set k | k in keys && key <= k
  }

  /** The scan's state after visiting `seen`: `r` holds the one match so far,
      or None when there was none. */
  ghost predicate Scanned(key: string, seen: set<string>, r: Option<string>) {
    MatchesAmong(seen, key) == if r.None? then {} else {r.value}
  }

  /** Visiting a key that is not a second match keeps the scan state. */
  lemma ScanVisit(key: string, seen: set<string>, k: string, r: Option<string>)
    requires Scanned(key, seen, r) && k !in seen
    requires !(r.Some? && key <= k)
    ensures Scanned(key, seen + {k}, if key <= k then Some(k) else r)
  {
    assert MatchesAmong(seen + {k}, key) == MatchesAmong(seen, key) + (if key <= k then {k} else {});
  }

  /** The partial-match loop: visit the keys in any order, remember the first
      one the name is a prefix of, and give up on a second. */
  method ScanPartialMatch(reg: Webjumps, key: string) returns (r: Option<string>)
    ensures r == UniquePrefixKey(reg, key)
    ensures r.Some? <==> |PrefixMatches(reg, key)| == 1
    ensures r.Some? ==> PrefixMatches(reg, key) == {r.value}
  {
    var rest := reg.Keys;
    ghost var seen: set<string> := {};
    r := None;
    while rest != {}
      invariant rest + seen == reg.Keys && rest !! seen
      invariant Scanned(key, seen, r)
      decreases rest
    {
      var k :| k in rest;
      SubstringPrefixTest(k, key);
      var isMatch := SubstringTo(k, |key|) == key;
      if isMatch && r.Some? {
        ScanSecondMatch(reg, key, seen, r, k);
        UniquePrefixKeyDetermined(reg, key, None);
        return None;
      }
      ScanVisit(key, seen, k, r);
      if isMatch {
        r := Some(k);
      }
      rest := rest - {k};
      seen := seen + {k};
    }
    ScanFinished(reg, key, seen, r);
    UniquePrefixKeyDetermined(reg, key, r);
  }

  /** A second match while one is remembered makes the name ambiguous. */
  lemma ScanSecondMatch(reg: Webjumps, key: string, seen: set<string>, r: Option<string>, k: string)
    requires seen <= reg.Keys && Scanned(key, seen, r)
    requires k in reg && k !in seen && r.Some? && key <= k
    ensures |PrefixMatches(reg, key)| >= 2
  {
    assert r.value in MatchesAmong(seen, key);
    TwoPrefixMatchesAreAmbiguous(reg, key, r.value, k);
  }

  /** After visiting every key the remembered match is the unique one. */
  lemma ScanFinished(reg: Webjumps, key: string, seen: set<string>, r: Option<string>)
    requires seen == reg.Keys && Scanned(key, seen, r)
    ensures r.Some? <==> |PrefixMatches(reg, key)| == 1
    ensures r.Some? ==> PrefixMatches(reg, key) == {r.value}
  {
    assert PrefixMatches(reg, key) == MatchesAmong(seen, key);
  }

  /** The two properties the scan establishes determine the unique-prefix
      key, so the scan agrees with `UniquePrefixKey` whatever order it
      visits the keys in. */
  lemma UniquePrefixKeyDetermined(reg: Webjumps, key: string, r: Option<string>)
    requires r.Some? <==> |PrefixMatches(reg, key)| == 1
    requires r.Some? ==> PrefixMatches(reg, key) == {r.value}
    ensures r == UniquePrefixKey(reg, key)
  {
  }

  /** Two distinct keys starting with the typed name leave no unique match. */
  lemma TwoPrefixMatchesAreAmbiguous(reg: Webjumps, key: string, a: string, b: string)
    requires a in reg && b in reg && a != b && key <= a && key <= b
    ensures |PrefixMatches(reg, key)| >= 2
  {
    assert |{a, b}| == 2;
    CardinalityOfSubset({a, b}, PrefixMatches(reg, key));
  }

  lemma CardinalityOfSubset<T>(a: set<T>, b: set<T>)
    requires a <= b
    ensures |a| <= |b|
  {
    assert b == a + (b - a);
  }

  /** An exact name wins, even when it is also a prefix of other keys and
      whether or not partial matching is on. */
  lemma ExactMatchWins(reg: Webjumps, s: string, partial: bool)
    requires SplitInput(s).key in reg
    ensures MatchWebjump(reg, s, partial) ==
      var sp := SplitInput(s);
      if sp.arg.None? && reg[sp.key].argument == ArgTrue then Err(MissingArgument(sp.key))
      else Ok(Some(Match(reg[sp.key], sp.key, sp.arg)))
  {
  }

  /** With partial matching off, only registered names are found. */
  lemma ExactOnlyWithoutPartial(reg: Webjumps, s: string)
    ensures MatchWebjump(reg, s, false).Ok? && MatchWebjump(reg, s, false).value.Some?
      ==> SplitInput(s).key in reg
    ensures SplitInput(s).key !in reg ==> MatchWebjump(reg, s, false) == Ok(None)
  {
  }

  /** With partial matching on and no exact entry, something is found (a
      result or the error) exactly when one registered key starts with the
      typed name, and then it is that key's entry. */
  lemma PartialMatchUnique(reg: Webjumps, s: string)
    requires SplitInput(s).key !in reg
    ensures MatchWebjump(reg, s, true) != Ok(None)
      <==> |PrefixMatches(reg, SplitInput(s).key)| == 1
    ensures WellKeyed(reg) && MatchWebjump(reg, s, true).Ok? && MatchWebjump(reg, s, true).value.Some? ==>
      PrefixMatches(reg, SplitInput(s).key) == {MatchWebjump(reg, s, true).value.value.def.key}
  {
  }

  /** An ambiguous prefix is no match, not an error. */
  lemma AmbiguousPrefixIsNoMatch(reg: Webjumps, s: string)
    requires SplitInput(s).key !in reg
    requires |PrefixMatches(reg, SplitInput(s).key)| >= 2
    ensures MatchWebjump(reg, s, true) == Ok(None)
  {
  }

  /** The empty name is a prefix of every key: with partial matching on, an
      input starting with a space (or empty) finds something only when
      exactly one webjump is registered. */
  lemma EmptyNameMatchesEveryKey(reg: Webjumps, s: string)
    requires SplitInput(s).key == "" && "" !in reg
    ensures PrefixMatches(reg, "") == reg.Keys
    ensures MatchWebjump(reg, s, true) != Ok(None) <==> |reg| == 1
  {
    assert PrefixMatches(reg, "") == reg.Keys;
  }

  /** The error is raised exactly when a definition is found, no argument was
      typed and the definition's argument is `true`; `'optional'` does not
      count as required. */
  lemma MissingArgumentExactly(reg: Webjumps, s: string, partial: bool)
    ensures MatchWebjump(reg, s, partial).Err? <==>
      && Lookup(reg, SplitInput(s).key, partial).Some?
      && SplitInput(s).arg.None?
      && Lookup(reg, SplitInput(s).key, partial).value.argument == ArgTrue
  {
  }
}
