/** The morphology token filter of src/sphinxaot.cpp: CSphAotTokenizerTmpl with the GetToken of
    CSphAotTokenizerRu and CSphAotTokenizer, which differ only in what a Language holds. */
module AotTokenizer {

  const AOT_NOFORM := 0xffffffff
  const AOT_ORIGFORM := 0xfffffffe
  const MAX_RESULTS := 12

  datatype Option<T> = None | Some(value: T)

  /** A token of the filtered tokenizer, and whether it is part of a blended one. */
  datatype Token = Token(text: string, blended: bool)

  datatype Morph = Raw | Guess | Original

  /** A token the filter returns, with what TokenIsBlended and the token morphology then say. */
  datatype Emitted = Emitted(text: string, blended: bool, morph: Morph)

  /** What LemmatizeWord leaves: the form it has rewritten, and its hypotheses. */
  datatype Analysis = Analysis(form: string, found: bool, codes: seq<nat>)

  /** The lookups the filter makes: wordforms before and after morphology, alphabet, encoding,
      frequent words, dictionary and lemma generation. */
  datatype Language = Language(
    wordform: string -> Option<string>,
    alphabetic: string -> bool,
    toForm: string -> string,
    frequent: string -> bool,
    lemmatize: string -> Analysis,
    inflect: (string, bool, nat) -> string,
    normal: string -> string)

  /** Encoding never lengthens a token, and the results leave room for the original form and the end mark. */
  ghost predicate Sound(lang: Language) {
    && (forall t :: |lang.toForm(t)| <= |t|)
    && forall f :: SoundCodes(lang.lemmatize(f).codes)
  }

  /** No zero byte inside. */
  ghost predicate CString(text: string) {
    forall i :: 0 <= i < |text| ==> text[i] != '\0'
  }

  ghost predicate CStrings(ts: seq<Token>) {
    forall i :: 0 <= i < |ts| ==> CString(ts[i].text)
  }

  ghost predicate SoundCodes(codes: seq<nat>) {
    |codes| <= MAX_RESULTS - 2 && forall i :: 0 <= i < |codes| ==> codes[i] < AOT_ORIGFORM
  }

  /** The hypotheses about a token, if it has any. */
  ghost function Hypotheses(lang: Language, text: string): (a: Option<Analysis>) {
    if |text| <= 2 || !lang.alphabetic(text) then None
    else
      var form := lang.toForm(text);
      if |form| <= 1 || lang.frequent(form) || lang.lemmatize(form).codes == [] then None
      else Some(lang.lemmatize(form))
  }

  /** One token per hypothesis and then the original where exact forms are indexed; all but the last blended. */
  ghost function Fan(lang: Language, exact: bool, a: Analysis, text: string): (out: seq<Emitted>) {
    var n := |a.codes| + if exact then 1 else 0;
    seq(n, i requires 0 <= i < n =>
      if i < |a.codes| then Emitted(lang.normal(lang.inflect(a.form, a.found, a.codes[i])), i < n - 1, Guess)
      else Emitted(text, false, Original))
  }

  /** What one source token turns into. */
  ghost function Expand(lang: Language, exact: bool, t: Token): (out: seq<Emitted>) {
    if t.blended then [Emitted(t.text, true, Raw)]
    else
      match lang.wordform(t.text)
      case Some(w) => [Emitted(w, false, Raw)]
      case None =>
        match Hypotheses(lang, t.text)
        case None => [Emitted(t.text, false, Raw)]
        case Some(a) => Fan(lang, exact, a, t.text)
  }

  /** A token passes through as it is if it is part of a blended one, too short, of another alphabet, frequent, or
      without a hypothesis; a wordform replaces it; otherwise there is a token for each hypothesis in its order,
      and the original last. */
  lemma ExpandsTo(lang: Language, exact: bool, t: Token)
    ensures
      var out, word := Expand(lang, exact, t), lang.toForm(t.text);
      var a := lang.lemmatize(word);
      && (t.blended ==> out == [Emitted(t.text, true, Raw)])
      && (!t.blended && lang.wordform(t.text).Some? ==> out == [Emitted(lang.wordform(t.text).value, false, Raw)])
      && (!t.blended && lang.wordform(t.text).None? ==>
            if |t.text| <= 2 || !lang.alphabetic(t.text) || |word| <= 1 || lang.frequent(word) || a.codes == [] then
              out == [Emitted(t.text, false, Raw)]
            else
              && |out| == |a.codes| + (if exact then 1 else 0)
              && (forall i :: 0 <= i < |a.codes| ==>
                    && out[i].text == lang.normal(lang.inflect(a.form, a.found, a.codes[i])) && out[i].morph == Guess
                    && (out[i].blended <==> i + 1 < |a.codes| || exact))
              && (exact ==> out[|a.codes|] == Emitted(t.text, false, Original)))
  {
  }

  ghost function ExpandAll(lang: Language, exact: bool, ts: seq<Token>): (out: seq<Emitted>) {
    if ts == [] then [] else Expand(lang, exact, ts[0]) + ExpandAll(lang, exact, ts[1..])
  }

  lemma ExpandNext(lang: Language, exact: bool, ts: seq<Token>, pos: nat)
    requires pos < |ts|
    ensures ExpandAll(lang, exact, ts[pos..]) == Expand(lang, exact, ts[pos]) + ExpandAll(lang, exact, ts[pos + 1..])
  {
    assert ts[pos..][1..] == ts[pos + 1..];
  }

  lemma NothingToExpand(lang: Language, exact: bool)
    ensures ExpandAll(lang, exact, []) == []
  {
  }

  ghost function Cons<T>(x: T, s: seq<T>): (r: seq<T>) {
    [x] + s
  }

  lemma ConsConcat<T>(x: T, a: seq<T>, b: seq<T>)
    ensures Cons(x, a) + b == Cons(x, a + b)
  {
  }

  lemma FromStart<T>(s: seq<T>)
    ensures s[0..] == s
  {
  }

  lemma Regroup<T>(a: seq<T>, x: T, b: seq<T>)
    ensures a + Cons(x, b) == a + [x] + b && |a + Cons(x, b)| > |a|
  {
  }

  /** Tokens that take a position of their own. */
  ghost function Plain(out: seq<Emitted>): (n: nat) {
    if out == [] then 0 else (if out[0].blended then 0 else 1) + Plain(out[1..])
  }

  ghost function PlainTokens(ts: seq<Token>): (n: nat) {
    if ts == [] then 0 else (if ts[0].blended then 0 else 1) + PlainTokens(ts[1..])
  }

  lemma {:induction false} PlainConcat(a: seq<Emitted>, b: seq<Emitted>)
    ensures Plain(a + b) == Plain(a) + Plain(b)
  {
    if a == [] {
      assert a + b == b;
    } else {
      PlainConcat(a[1..], b);
      assert (a + b)[1..] == a[1..] + b;
    }
  }

  lemma {:induction false} PlainLast(out: seq<Emitted>)
    requires |out| > 0 && forall i :: 0 <= i < |out| ==> (out[i].blended <==> i < |out| - 1)
    ensures Plain(out) == 1
  {
    if |out| > 1 {
      PlainLast(out[1..]);
    }
  }

  /** The filter fans tokens out and still keeps their positions: as many of its tokens take a position as
      of the source's. */
  lemma {:induction false} PositionsKept(lang: Language, exact: bool, ts: seq<Token>)
    ensures Plain(ExpandAll(lang, exact, ts)) == PlainTokens(ts)
  {
    if ts != [] {
      var out := Expand(lang, exact, ts[0]);
      if !ts[0].blended {
        PlainLast(out);
      }
      PlainConcat(out, ExpandAll(lang, exact, ts[1..]));
      PositionsKept(lang, exact, ts[1..]);
    }
  }

  /** The results that end up scheduled. */
  ghost function Scheduled(codes: seq<nat>, exact: bool): (s: seq<nat>) {
    codes + if exact then [AOT_ORIGFORM] else []
  }

  /** A result array lists some codes up to its end mark. */
  ghost predicate Listed(results: seq<nat>, codes: seq<nat>) {
    && |codes| < |results| && results[|codes|] == AOT_NOFORM
    && forall i :: 0 <= i < |codes| ==> results[i] == codes[i] != AOT_NOFORM
  }

  lemma FanAt(lang: Language, exact: bool, a: Analysis, text: string, k: nat)
    requires k < |Scheduled(a.codes, exact)|
    ensures |Fan(lang, exact, a, text)| == |Scheduled(a.codes, exact)| == |a.codes| + if exact then 1 else 0
    ensures k < |a.codes| ==>
      var token := lang.normal(lang.inflect(a.form, a.found, a.codes[k]));
      Fan(lang, exact, a, text)[k] == Emitted(token, k + 1 < |Scheduled(a.codes, exact)|, Guess)
    ensures k >= |a.codes| ==> Fan(lang, exact, a, text)[k] == Emitted(text, false, Original)
    ensures Fan(lang, exact, a, text)[k..]
      == [Fan(lang, exact, a, text)[k]] + Fan(lang, exact, a, text)[k + 1..]
    ensures k + 1 == |Scheduled(a.codes, exact)| ==> Fan(lang, exact, a, text)[k + 1..] == []
  {
  }

  lemma ScheduledAt(results: array<nat>, codes: seq<nat>, exact: bool, k: nat)
    requires SoundCodes(codes) && Listed(results[..], Scheduled(codes, exact)) && k < |Scheduled(codes, exact)|
    ensures |Scheduled(codes, exact)| == |codes| + (if exact then 1 else 0) && k + 1 < results.Length
    ensures results[k] == AOT_ORIGFORM <==> k == |codes|
    ensures k < |codes| ==> results[k] == codes[k]
    ensures results[k + 1] == AOT_NOFORM <==> k + 1 == |Scheduled(codes, exact)|
  {
    assert results[k] == results[..][k] && results[k + 1] == results[..][k + 1];
  }

  lemma ScheduledBoth(codes: seq<nat>)
    ensures Scheduled(codes, false) == codes && Scheduled(codes, true) == codes + [AOT_ORIGFORM]
    ensures codes != [] ==> |Scheduled(codes, false)| > 0
  {
  }

  lemma ListedFirst(results: array<nat>, codes: seq<nat>)
    requires Listed(results[..], codes)
    ensures results.Length > 0 && (results[0] == AOT_NOFORM <==> codes == [])
  {
    assert results[0] == results[..][0];
  }

  class Filter {
    const lang: Language
    const exact: bool
    const source: seq<Token>
    var pos: nat                        // tokens taken from the tokenizer
    var form: string
    var found: bool
    var current: int                    // index of the result just returned, -1 if none is left
    var orig: string
    var morph: Morph
    const results: array<nat>
    ghost var analysis: Analysis

    ghost predicate Valid()
      reads this`pos, this`form, this`found, this`current, this`orig, this`analysis, results
    {
      && Sound(lang) && CStrings(source) && results.Length == MAX_RESULTS && pos <= |source| && -1 <= current
      && (current >= 0 ==> Pending())
    }

    /** The results hold the codes of the last token from the tokenizer, and some are still to be returned. */
    ghost predicate Pending()
      requires results.Length == MAX_RESULTS && pos <= |source| && -1 <= current
      reads this`pos, this`form, this`found, this`current, this`orig, this`analysis, results
    {
      && pos > 0 && !source[pos - 1].blended
      && SoundCodes(analysis.codes) && form == analysis.form && found == analysis.found
      && Listed(results[..], Scheduled(analysis.codes, exact))
      && current + 1 < |Scheduled(analysis.codes, exact)|
      && (exact ==> orig == source[pos - 1].text)
    }

    /** The pending tokens of the last token from the tokenizer. */
    ghost function Left(): (out: seq<Emitted>)
      requires Valid()
      reads this`pos, this`form, this`found, this`current, this`orig, this`analysis, results
    {
      if current >= 0 then Fan(lang, exact, analysis, source[pos - 1].text)[current + 1..] else []
    }

    /** The tokens the filter has yet to return. */
    ghost function Todo(): (out: seq<Emitted>)
      requires Valid()
      reads this`pos, this`form, this`found, this`current, this`orig, this`analysis, results
    {
      Left() + ExpandAll(lang, exact, source[pos..])
    }

    constructor (lang: Language, exact: bool, source: seq<Token>)
      requires Sound(lang) && CStrings(source)
      ensures Valid() && fresh(results)
      ensures Todo() == ExpandAll(lang, exact, source)
    {
      this.lang := lang;
      this.exact := exact;
      this.source := source;
      this.pos := 0;
      this.current := -1;
      this.form, this.found, this.orig, this.morph := "", false, "", Raw;
      this.results := new nat[MAX_RESULTS](_ => AOT_NOFORM);
      new;
      hide ExpandAll, Sound, CStrings;
      assert source[0..] == source;
    }

    predicate TokenIsBlended()
      requires pos <= |source|
      reads this
    {
      current >= 0 || (pos > 0 && source[pos - 1].blended)
    }

    /** The lemmatizer leaves its codes and an end mark in the results. */
    method LemmatizeWord(word: string)
      requires Sound(lang) && results.Length == MAX_RESULTS
      modifies this`form, this`found, this`analysis, results
      ensures analysis == lang.lemmatize(word) && form == analysis.form && found == analysis.found
      ensures SoundCodes(analysis.codes) && Listed(results[..], analysis.codes)
    {
      var a := lang.lemmatize(word);
      form, found, analysis := a.form, a.found, a;
      for i := 0 to |a.codes|
        modifies results
        invariant forall j :: 0 <= j < i ==> results[j] == a.codes[j]
      {
        results[i] := a.codes[i];
      }
      results[|a.codes|] := AOT_NOFORM;
    }

    /** The mark of the original form goes after the codes. */
    method ScheduleOriginal(ghost codes: seq<nat>)
      requires results.Length == MAX_RESULTS && SoundCodes(codes) && codes != []
      requires Listed(results[..], codes)
      modifies results
      ensures Listed(results[..], codes + [AOT_ORIGFORM])
    {
      var i := 1;
      while results[i] != AOT_NOFORM
        invariant 1 <= i <= |codes|
        invariant results[i] == results[..][i]
        decreases |codes| - i
      {
        i := i + 1;
      }
      results[i] := AOT_ORIGFORM;
      results[i + 1] := AOT_NOFORM;
    }

    /** The pending token after the current one. */
    method NextPending() returns (token: string)
      requires Valid() && current >= 0
      modifies this`current, this`morph
      ensures Valid() && old(Left()) == Cons(Emitted(token, TokenIsBlended(), morph), Left())
    {
      hide ExpandAll, Expand, Fan, Sound, SoundCodes, Listed, Scheduled, CStrings;
      FanAt(lang, exact, analysis, source[pos - 1].text, current + 1);
      ScheduledAt(results, analysis.codes, exact, current + 1);
      current := current + 1;
      if results[current] == AOT_ORIGFORM {
        current := -1;
        morph := Original;
        return orig;
      }
      token := lang.inflect(form, found, results[current]);
      if results[current + 1] == AOT_NOFORM {
        current := -1;
      }
      token := lang.normal(token);
      morph := Guess;
    }

    /** Lemmatizes a token just taken; its hypotheses, and the original's mark where exact forms are indexed,
        are then in the results. */
    method Schedule(text: string, word: string) returns (some: bool)
      requires Sound(lang) && results.Length == MAX_RESULTS
      modifies this`form, this`found, this`orig, this`analysis, results
      ensures analysis == lang.lemmatize(word) && form == analysis.form && found == analysis.found
      ensures SoundCodes(analysis.codes) && (some <==> analysis.codes != [])
      ensures some ==> Listed(results[..], Scheduled(analysis.codes, exact)) && (exact ==> orig == text)
    {
      hide Sound, SoundCodes, Listed, Scheduled;
      LemmatizeWord(word);
      ListedFirst(results, analysis.codes);
      if results[0] == AOT_NOFORM {
        return false;
      }
      if exact {
        ScheduleOriginal(analysis.codes);
        orig := text;
      }
      ScheduledBoth(analysis.codes);
      return true;
    }

    /** Returns the first of the lemmas scheduled, the others pending. */
    method FirstScheduled(text: string) returns (token: string)
      requires Sound(lang) && CStrings(source) && results.Length == MAX_RESULTS
      requires current == -1 && 0 < pos <= |source| && source[pos - 1] == Token(text, false)
      requires SoundCodes(analysis.codes) && analysis.codes != [] && form == analysis.form && found == analysis.found
      requires Listed(results[..], Scheduled(analysis.codes, exact)) && (exact ==> orig == text)
      modifies this`current, this`morph
      ensures Valid()
      ensures Fan(lang, exact, analysis, text) == Cons(Emitted(token, TokenIsBlended(), morph), Left())
    {
      hide ExpandAll, Fan, Sound, SoundCodes, Listed, Scheduled, CStrings;
      ScheduledBoth(analysis.codes);
      FanAt(lang, exact, analysis, text, 0);
      FromStart(Fan(lang, exact, analysis, text));
      ScheduledAt(results, analysis.codes, exact, 0);
      ghost var fan := Fan(lang, exact, analysis, text);
      token := lang.normal(lang.inflect(form, found, results[0]));
      morph := Guess;
      if results[1] != AOT_NOFORM {
        current := 0;
        assert Left() == fan[1..];
      } else {
        assert Left() == fan[1..] == [];
      }
      assert fan[0] == Emitted(token, TokenIsBlended(), morph);
    }

    /** Lemmatizes a token just taken and returns its first lemma, the others pending, or nothing if there
        is no hypothesis. */
    method FirstLemma(text: string, word: string) returns (token: Option<string>)
      requires Valid() && current == -1 && pos > 0 && source[pos - 1] == Token(text, false)
      modifies this`form, this`found, this`current, this`orig, this`morph, this`analysis, results
      ensures Valid()
      ensures token.None? ==> lang.lemmatize(word).codes == [] && current == -1 && morph == old(morph)
      ensures token.Some? ==> lang.lemmatize(word).codes != []
      ensures token.Some? ==>
        Fan(lang, exact, lang.lemmatize(word), text) == Cons(Emitted(token.value, TokenIsBlended(), morph), Left())
    {
      hide ExpandAll, Fan, Sound, SoundCodes, Listed, Scheduled, CStrings;
      var some := Schedule(text, word);
      if !some {
        return None;
      }
      var first := FirstScheduled(text);
      return Some(first);
    }

    /** Returns what a token just taken from the tokenizer turns into, or the first of it. */
    method Process(t: Token, stale: char) returns (token: string)
      requires Valid() && current == -1 && pos > 0 && source[pos - 1] == t && morph == Raw
      modifies this`form, this`found, this`current, this`orig, this`morph, this`analysis, results
      ensures Valid() && Expand(lang, exact, t) == Cons(Emitted(token, TokenIsBlended(), morph), Left())
    {
      hide Fan, SoundCodes, Listed, Scheduled;
      if t.blended {
        return t.text;
      }
      var w := lang.wordform(t.text);
      if w.Some? {
        return w.value;
      }
      var third := if |t.text| > 2 then t.text[2] else if |t.text| == 2 then '\0' else stale;
      if third == '\0' {
        assert CString(t.text);
        return t.text;
      }
      if !lang.alphabetic(t.text) {
        return t.text;
      }
      var word := lang.toForm(t.text);
      if |word| <= 1 || lang.frequent(word) {
        return t.text;
      }
      var first := FirstLemma(t.text, word);
      return if first.Some? then first.value else t.text;
    }

    /** Takes a token from the tokenizer and processes it. */
    method Fetch(stale: char) returns (token: string)
      requires Valid() && current == -1 && pos < |source| && morph == Raw
      modifies this`pos, this`form, this`found, this`current, this`orig, this`morph, this`analysis, results
      ensures Valid()
      ensures ExpandAll(lang, exact, old(source[pos..])) == Cons(Emitted(token, TokenIsBlended(), morph), Todo())
    {
      hide ExpandAll, Expand, Fan, Sound, SoundCodes, Listed, Scheduled, CStrings;
      ExpandNext(lang, exact, source, pos);
      pos := pos + 1;
      ghost var rest := ExpandAll(lang, exact, source[pos..]);
      token := Process(source[pos - 1], stale);
      ConsConcat(Emitted(token, TokenIsBlended(), morph), Left(), rest);
    }

    lemma NothingLeft()
      requires Valid() && current < 0
      ensures Left() == []
    {
    }

    /** The next token: a pending one, or the first of what the next source token turns into. The
        byte past a one-byte token's end is whatever an earlier token left there. */
    method GetToken(stale: char) returns (token: Option<string>)
      requires Valid()
      modifies this, results
      ensures Valid()
      ensures token.None? ==> old(Todo()) == [] && Todo() == []
      ensures token.Some? ==> old(Todo()) == Cons(Emitted(token.value, TokenIsBlended(), morph), Todo())
    {
      hide ExpandAll, Expand, Fan, Sound, SoundCodes, Listed, Scheduled, CStrings;
      hide Cons, Left;
      ghost var rest := ExpandAll(lang, exact, source[pos..]);
      morph := Raw;
      if current >= 0 {
        var t := NextPending();
        ConsConcat(Emitted(t, TokenIsBlended(), morph), Left(), rest);
        return Some(t);
      }
      NothingLeft();
      NothingToExpand(lang, exact);
      assert [] + rest == rest;
      if pos == |source| {
        assert source[pos..] == [];
        return None;
      }
      var t := Fetch(stale);
      return Some(t);
    }
  }

  /** Everything a filter returns until it runs out: each source token expanded, in order. */
  method ReadAll(lang: Language, exact: bool, source: seq<Token>, stale: nat -> char) returns (out: seq<Emitted>)
    requires Sound(lang) && CStrings(source)
    ensures out == ExpandAll(lang, exact, source)
  {
    hide ExpandAll, Sound, CStrings, Cons, Filter.Todo;
    var filter := new Filter(lang, exact, source);
    out := [];
    ghost var whole := filter.Todo();
    var token := filter.GetToken(stale(0));
    while token.Some?
      invariant filter.Valid() && fresh(filter) && fresh(filter.results)
      invariant token.Some? ==>
                  whole == out + Cons(Emitted(token.value, filter.TokenIsBlended(), filter.morph), filter.Todo())
      invariant token.None? ==> whole == out
      decreases |whole| - |out|, token.Some?
    {
      var next := Emitted(token.value, filter.TokenIsBlended(), filter.morph);
      Regroup(out, next, filter.Todo());
      out := out + [next];
      token := filter.GetToken(stale(|out|));
    }
  }
}
