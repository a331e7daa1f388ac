/** The retrieval context of the question-answering evaluation
    (src/modules/benchmarks/agent_eval_memory_support.c, mem_eval_build_retrieval_context):
    results packed greedily, in order, under a token budget and into a fixed buffer. */
module ContextPacking {
  import opened Wrappers

  const NUL: char := '\0'
  const LINE_SIZE: nat := 2304
  const TRIMMED_SIZE: nat := 1600
  const FETCHED: nat := 32

  /** The limits of one call after defaults. */
  datatype Limits = Limits(topK: nat, budget: nat, size: nat)
  {
    /** Tokens one line may take when it is not the first. */
    function Cap(): nat {
      if budget / 2 < 96 then budget else budget / 2
    }

    /** Characters of a content that may need trimming. */
    function MaxChars(): nat {
      if Cap() * 4 > TRIMMED_SIZE - 4 then TRIMMED_SIZE - 4 else Cap() * 4
    }

    /** A content as it is shown. */
    function Shown(content: string): string {
      if |content| > MaxChars() && Cap() < budget then content[..MaxChars()] + "..." else content
    }
  }

  function LimitsOf(topK: int, tokenBudget: int, size: nat): (l: Limits)
    ensures l.topK > 0 && l.budget > 0
  {
    Limits(if topK <= 0 then 10 else topK, if tokenBudget <= 0 then 2000 else tokenBudget, size)
  }

  /** Without a wish of the caller there are ten lines and two thousand tokens. */
  lemma Defaults(topK: int, tokenBudget: int, size: nat)
    ensures LimitsOf(0, 0, size) == LimitsOf(-1, -1, size) == Limits(10, 2000, size)
    ensures topK > 0 && tokenBudget > 0 ==> LimitsOf(topK, tokenBudget, size) == Limits(topK, tokenBudget, size)
  {
  }

  /** mem_eval_estimate_tokens. */
  function Tokens(text: string): nat {
    (|text| + 3) / 4
  }

  function Decimal(n: nat): (s: string)
    ensures s != []
  {
    var digit := "0123456789"[n % 10];
    if n < 10 then [digit] else Decimal(n / 10) + [digit]
  }

  /** Line number k of the context. */
  function Line(k: nat, shown: string): (s: string)
    ensures s != []
  {
    "[" + Decimal(k) + "] " + shown + "\n"
  }

  /** What formatting leaves of a line in the line buffer; the length it reports is that of the
      whole line all the same. */
  function Buffered(line: string): (s: string)
    ensures |line| < LINE_SIZE ==> s == line
  {
    if |line| < LINE_SIZE then line else line[..LINE_SIZE - 1]
  }

  /** What is copied of a line: as many bytes as its whole length, so a line that exceeds the
      buffer by its line feed alone brings the terminator in its place. */
  function Copied(line: string): (s: string)
    ensures |s| == |line|
    ensures |line| < LINE_SIZE ==> s == line
  {
    if |line| == LINE_SIZE then line[..LINE_SIZE - 1] + [NUL] else line
  }

  // ---- the greedy choice -----------------------------------------------------------------

  datatype Pack = Pack(picked: seq<nat>, text: string, tokens: nat)

  /** The next result fits: the first needs only room, later ones also their share of the
      budget. */
  predicate Fits(l: Limits, p: Pack, line: string) {
    && (|p.picked| > 0 ==>
          Tokens(Buffered(line)) <= l.Cap() && p.tokens + Tokens(Buffered(line)) <= l.budget)
    && |p.text| + |line| + 1 < l.size
  }

  function LineOf(l: Limits, contents: seq<string>, p: Pack, i: nat): string
    requires i < |contents|
  {
    Line(|p.picked| + 1, l.Shown(contents[i]))
  }

  /** What has been packed of the first n results. */
  function Packed(l: Limits, contents: seq<string>, n: nat): Pack
    requires n <= |contents|
  {
    if n == 0 then Pack([], "", 0) else Considered(l, contents, Packed(l, contents, n - 1), n - 1)
  }

  /** Result i is packed if there is room for it. */
  function Considered(l: Limits, contents: seq<string>, p: Pack, i: nat): Pack
    requires i < |contents|
  {
    var line := LineOf(l, contents, p, i);
    if |p.picked| < l.topK && Fits(l, p, line)
    then Pack(p.picked + [i], p.text + Copied(line), p.tokens + Tokens(Buffered(line)))
    else p
  }

  /** The copy of result i would read past the end of the line buffer. */
  predicate Overruns(l: Limits, contents: seq<string>, i: nat)
    requires i < |contents|
  {
    var p := Packed(l, contents, i);
    var line := LineOf(l, contents, p, i);
    |p.picked| < l.topK && Fits(l, p, line) && |line| > LINE_SIZE
  }

  ghost predicate NoOverrun(l: Limits, contents: seq<string>, n: nat)
    requires n <= |contents|
  {
    forall i :: 0 <= i < n ==> !Overruns(l, contents, i)
  }

  ghost predicate Increasing(picked: seq<nat>, n: nat) {
    && (forall j :: 0 <= j < |picked| ==> picked[j] < n)
    && (forall j, k :: 0 <= j < k < |picked| ==> picked[j] < picked[k])
  }

  /** The context for a choice of results: their lines, numbered from 1. */
  function Render(l: Limits, contents: seq<string>, picked: seq<nat>): string
    requires forall j :: 0 <= j < |picked| ==> picked[j] < |contents|
  {
    if picked == [] then ""
    else
      var last := |picked| - 1;
      Render(l, contents, picked[..last]) + Copied(Line(last + 1, l.Shown(contents[picked[last]])))
  }

  /** The text is the lines of a subsequence of the results in their order, numbered 1 to
      kept, as they are copied. */
  lemma {:induction false} PackedIsSubsequence(l: Limits, contents: seq<string>, n: nat)
    requires n <= |contents|
    ensures var p := Packed(l, contents, n);
      Increasing(p.picked, n) && p.text == Render(l, contents, p.picked)
  {
    hide Line, Fits, Limits.Shown, Render, Copied;
    if n == 0 {
      RenderNothing(l, contents);
    } else {
      PackedIsSubsequence(l, contents, n - 1);
      RenderOneMore(l, contents, Packed(l, contents, n - 1).picked, n - 1);
    }
  }

  lemma RenderNothing(l: Limits, contents: seq<string>)
    ensures Render(l, contents, []) == ""
  {
  }

  lemma RenderOneMore(l: Limits, contents: seq<string>, picked: seq<nat>, i: nat)
    requires i < |contents| && forall j :: 0 <= j < |picked| ==> picked[j] < |contents|
    ensures Render(l, contents, picked + [i])
            == Render(l, contents, picked) + Copied(Line(|picked| + 1, l.Shown(contents[i])))
  {
    hide Line, Limits.Shown;
    assert (picked + [i])[..|picked|] == picked;
  }

  /** At most top_k lines; room for the terminator; the budget holds as soon as there are two
      lines; and four characters to a token, at most three of them missing in each line. */
  lemma {:induction false} PackedRespectsLimits(l: Limits, contents: seq<string>, n: nat)
    requires n <= |contents| && l.size > 0
    ensures var p := Packed(l, contents, n);
      && |p.picked| <= l.topK && |p.text| < l.size
      && (p.tokens <= l.budget || |p.picked| == 1)
      && (NoOverrun(l, contents, n) ==> |p.text| <= 4 * p.tokens <= |p.text| + 3 * |p.picked|)
  {
    hide Line, Limits.Shown, Limits.Cap, Copied;
    if n > 0 {
      PackedRespectsLimits(l, contents, n - 1);
      var line := LineOf(l, contents, Packed(l, contents, n - 1), n - 1);
      assert NoOverrun(l, contents, n) ==> NoOverrun(l, contents, n - 1) && !Overruns(l, contents, n - 1);
      assert |line| <= LINE_SIZE ==> |line| <= 4 * Tokens(Buffered(line)) <= |line| + 3;
    }
  }

  lemma {:induction false} DecimalLength(n: nat)
    ensures n < 10 ==> |Decimal(n)| == 1
    ensures n < 100 ==> |Decimal(n)| <= 2
  {
  }

  lemma {:induction false} PickedAtMost(l: Limits, contents: seq<string>, n: nat)
    requires n <= |contents|
    ensures |Packed(l, contents, n).picked| <= n
  {
    hide Line, Limits.Shown, Fits;
    if n > 0 {
      PickedAtMost(l, contents, n - 1);
    }
  }

  /** With the trimming in force, or with an output too small for such a line, no result
      overruns the line buffer. */
  lemma TrimmedNeverOverruns(l: Limits, contents: seq<string>, i: nat)
    requires i < |contents| <= FETCHED && (l.budget >= 192 || l.size <= LINE_SIZE + 2)
    ensures !Overruns(l, contents, i)
  {
    hide Packed, Buffered;
    var p := Packed(l, contents, i);
    PickedAtMost(l, contents, i);
    DecimalLength(|p.picked| + 1);
    if l.budget >= 192 {
      assert l.Cap() < l.budget;
      assert |l.Shown(contents[i])| <= TRIMMED_SIZE;
    }
  }

  /** Otherwise one long result does. */
  lemma UntrimmedOverruns(l: Limits) returns (contents: seq<string>)
    requires l.topK > 0 && l.budget < 192 && l.size > LINE_SIZE + 2
    ensures |contents| == 1 && Overruns(l, contents, 0)
  {
    var content: string := seq(LINE_SIZE - 4, _ => 'a');
    contents := [content];
    DecimalLength(1);
    assert l.Cap() == l.budget;
    assert l.Shown(content) == content;
    assert |Line(1, content)| == LINE_SIZE + 1;
  }

  /** The limits under which no results whatever overrun the line buffer are exactly those with
      a budget of at least 192 tokens or an output no larger than such a line needs. */
  lemma SafeLimits(l: Limits)
    requires l.topK > 0
    ensures (forall contents: seq<string> :: |contents| <= FETCHED ==> NoOverrun(l, contents, |contents|)) <==>
            l.budget >= 192 || l.size <= LINE_SIZE + 2
  {
    hide Overruns;
    if l.budget >= 192 || l.size <= LINE_SIZE + 2 {
      forall contents: seq<string> | |contents| <= FETCHED ensures NoOverrun(l, contents, |contents|) {
        forall i: nat | i < |contents| ensures !Overruns(l, contents, i) {
          TrimmedNeverOverruns(l, contents, i);
        }
      }
    } else {
      var contents := UntrimmedOverruns(l);
      assert !NoOverrun(l, contents, |contents|);
    }
  }

  /** Greedy: a result is left out only when the context was full of lines or its own line,
      numbered next, did not fit what had been packed before it. */
  lemma {:induction false} LeftOutOnlyWithoutRoom(l: Limits, contents: seq<string>, n: nat, i: nat)
    requires i < n <= |contents|
    ensures var p := Packed(l, contents, i);
      i in Packed(l, contents, n).picked <==>
      |p.picked| < l.topK && Fits(l, p, LineOf(l, contents, p, i))
  {
    hide Line, Fits, Limits.Shown;
    if i == n - 1 {
      PackedIsSubsequence(l, contents, i);
    } else {
      LeftOutOnlyWithoutRoom(l, contents, n - 1, i);
    }
  }

  /** The context is empty exactly when no single line fits the buffer. */
  lemma {:induction false} EmptyOnlyWithoutRoom(l: Limits, contents: seq<string>, n: nat)
    requires n <= |contents| && l.topK > 0
    ensures Packed(l, contents, n).picked == [] <==>
            forall i :: 0 <= i < n ==> |Line(1, l.Shown(contents[i]))| + 1 >= l.size
    ensures Packed(l, contents, n).picked == [] ==> Packed(l, contents, n) == Pack([], "", 0)
  {
    hide Line, Limits.Shown, Limits.Cap;
    if n > 0 {
      EmptyOnlyWithoutRoom(l, contents, n - 1);
    }
  }

  // ---- the same in numbers -------------------------------------------------------------------

  /** The number a string of decimal digits stands for. */
  function Value(s: string): int {
    if s == "" then 0 else 10 * Value(s[..|s| - 1]) + (s[|s| - 1] as int - '0' as int)
  }

  /** Line numbers are written in digits, without a leading zero, and read back. */
  lemma {:induction false} DecimalReadsBack(n: nat)
    ensures Value(Decimal(n)) == n
    ensures forall i :: 0 <= i < |Decimal(n)| ==> '0' <= Decimal(n)[i] <= '9'
    ensures n > 0 ==> Decimal(n)[0] != '0'
  {
    var digit := "0123456789"[n % 10];
    assert digit as int - '0' as int == n % 10;
    if n < 10 {
      assert [digit][..0] == "";
    } else {
      DecimalReadsBack(n / 10);
      assert Decimal(n)[..|Decimal(n)| - 1] == Decimal(n / 10);
    }
  }

  /** A line is its number in brackets, a blank, the text and a line feed. */
  lemma LineParts(k: nat, shown: string)
    ensures var s, d := Line(k, shown), |Decimal(k)|;
      && |s| == d + |shown| + 4 && s[0] == '[' && s[1..d + 1] == Decimal(k) && s[d + 1] == ']' && s[d + 2] == ' '
      && s[d + 3..d + 3 + |shown|] == shown && s[|s| - 1] == '\n'
  {
    hide Decimal;
    var s, d := Line(k, shown), Decimal(k);
    assert s[1..|d| + 1] == d;
    assert s[|d| + 3..|d| + 3 + |shown|] == shown;
  }

  /** With at least 192 tokens a content longer than four characters to each token of half the
      budget, and at most 1596, is cut there and marked; otherwise it is shown whole. */
  lemma ShownIs(l: Limits, content: string)
    ensures var half := l.budget / 2;
      var most := if 4 * half > 1596 then 1596 else 4 * half;
      l.Shown(content) == if half >= 96 && |content| > most then content[..most] + "..." else content
  {
  }

  /** Tokens of the lines of a choice of results, a quarter of the characters of each rounded up, of
      which the line buffer holds at most 2303. */
  function TokensOf(l: Limits, contents: seq<string>, kept: seq<nat>): nat
    requires forall j :: 0 <= j < |kept| ==> kept[j] < |contents|
  {
    if kept == [] then 0
    else
      var last := |kept| - 1;
      TokensOf(l, contents, kept[..last]) + LineTokens(|Line(last + 1, l.Shown(contents[kept[last]]))|)
  }

  function LineTokens(length: nat): nat {
    ((if length <= 2303 then length else 2303) + 3) / 4
  }

  /** Result i may follow the results kept so far: a line is left, there is room for its own line and
      the terminator, and, unless it is the first, it takes at most half the budget, or all of a
      budget below 192, and leaves the budget unexceeded. */
  ghost predicate MayFollow(l: Limits, contents: seq<string>, kept: seq<nat>, i: nat)
    requires i < |contents| && forall j :: 0 <= j < |kept| ==> kept[j] < |contents|
  {
    var length := |Line(|kept| + 1, l.Shown(contents[i]))|;
    && |kept| < l.topK
    && |Render(l, contents, kept)| + length + 1 < l.size
    && (kept != [] ==>
          && LineTokens(length) <= (if l.budget < 192 then l.budget else l.budget / 2)
          && TokensOf(l, contents, kept) + LineTokens(length) <= l.budget)
  }

  lemma TokensOneMore(l: Limits, contents: seq<string>, kept: seq<nat>, i: nat)
    requires i < |contents| && forall j :: 0 <= j < |kept| ==> kept[j] < |contents|
    ensures TokensOf(l, contents, kept + [i])
            == TokensOf(l, contents, kept) + LineTokens(|Line(|kept| + 1, l.Shown(contents[i]))|)
  {
    hide Line, Limits.Shown;
    assert (kept + [i])[..|kept|] == kept;
  }

  lemma {:induction false} PackedTokens(l: Limits, contents: seq<string>, n: nat)
    requires n <= |contents|
    ensures var p := Packed(l, contents, n); Increasing(p.picked, n) && p.tokens == TokensOf(l, contents, p.picked)
  {
    hide Line, Fits, Limits.Shown, Render, Copied;
    PackedIsSubsequence(l, contents, n);
    if n > 0 {
      PackedTokens(l, contents, n - 1);
      TokensOneMore(l, contents, Packed(l, contents, n - 1).picked, n - 1);
    }
  }

  /** Which results are kept, and how many tokens they take, in numbers: each one that may follow
      those kept before it. */
  lemma KeptExactly(l: Limits, contents: seq<string>, n: nat, i: nat)
    requires i < n <= |contents|
    ensures var kept := Packed(l, contents, i).picked;
      && Increasing(kept, i) && Packed(l, contents, i).tokens == TokensOf(l, contents, kept)
      && (i in Packed(l, contents, n).picked <==> MayFollow(l, contents, kept, i))
  {
    hide Line, Limits.Shown, Render, Copied, TokensOf;
    PackedIsSubsequence(l, contents, i);
    PackedTokens(l, contents, i);
    LeftOutOnlyWithoutRoom(l, contents, n, i);
  }

  // ---- the imperative code -------------------------------------------------------------------

  ghost predicate Terminated(buffer: seq<char>, text: string) {
    |text| < |buffer| && buffer[..|text|] == text && buffer[|text|] == NUL
  }

  /** A buffer that was was, with text and its terminator at the front. */
  function Holding(was: seq<char>, text: string): seq<char>
    requires |text| < |was|
  {
    text + [NUL] + was[|text| + 1..]
  }

  /** Copies a line behind the text and terminates it. */
  method Append(context: array<char>, used: nat, line: string)
    requires used + |line| < context.Length
    modifies context
    ensures context[..] == old(context[..used]) + line + [NUL] + old(context[used + |line| + 1..])
  {
    ghost var was := context[..];
    for k := 0 to |line|
      invariant forall j :: 0 <= j < context.Length && !(used <= j < used + k) ==> context[j] == was[j]
      invariant forall j :: 0 <= j < k ==> context[used + j] == line[j]
    {
      context[used + k] := line[k];
    }
    context[used + |line|] := NUL;
  }

  lemma HoldingMore(was: seq<char>, text: string, line: string)
    requires |text| + |line| < |was|
    ensures var b := Holding(was, text);
      b[..|text|] + line + [NUL] + b[|text| + |line| + 1..] == Holding(was, text + line)
  {
  }

  /** mem_eval_build_retrieval_context. The results are a parameter, None standing for a
      failed search. A copy that would read past the line buffer ends the model's account. */
  method BuildRetrievalContext(hasQuery: bool, topK: int, tokenBudget: int, context: array<char>,
                               search: Option<seq<string>>)
    returns (kept: int, tokens: nat, overrun: bool)
    requires search.Some? ==> |search.value| <= FETCHED
    modifies context
    ensures !hasQuery || context.Length == 0 ==> kept == 0 && !overrun && context[..] == old(context[..])
    ensures hasQuery && context.Length > 0 && search.None? ==>
      kept == -1 && !overrun && context[..] == old(context[..])
    ensures hasQuery && context.Length > 0 && search.Some? ==>
      var l := LimitsOf(topK, tokenBudget, context.Length);
      var p := Packed(l, search.value, |search.value|);
      && (!overrun <==> NoOverrun(l, search.value, |search.value|))
      && (!overrun ==>
            && kept == |p.picked| && tokens == p.tokens
            && |p.text| < context.Length && context[..] == Holding(old(context[..]), p.text))
  {
    hide Line, Limits.Shown, Limits.Cap, Packed, Holding, Buffered, Copied;
    kept, tokens, overrun := 0, 0, false;
    if !hasQuery || context.Length == 0 {
      return;
    }
    if search == None {
      return -1, 0, false;
    }
    var l := LimitsOf(topK, tokenBudget, context.Length);
    var results := search.value;
    var used := 0;
    context[0] := NUL;
    NothingPacked(l, results, context[..], old(context[..]));
    var i := 0;
    while i < |results| && kept < l.topK
      invariant 0 <= i <= |results| && 0 <= kept <= i && !overrun
      invariant NoOverrun(l, results, i)
      invariant var p := Packed(l, results, i);
        && kept == |p.picked| && tokens == p.tokens && used == |p.text| < context.Length
        && context[..] == Holding(old(context[..]), p.text)
    {
      ghost var p := Packed(l, results, i);
      var line := Line(kept + 1, l.Shown(results[i]));
      PackOneMore(l, results, i);
      HoldsText(old(context[..]), p.text);
      var lineTokens := Tokens(Buffered(line));
      if (lineTokens > l.Cap() && kept > 0) || (kept > 0 && tokens + lineTokens > l.budget)
         || used + |line| + 1 >= context.Length {
        assert !Overruns(l, results, i);
        i := i + 1;
        continue;
      }
      if |line| > LINE_SIZE {
        assert Overruns(l, results, i);
        overrun := true;
        return;
      }
      assert !Overruns(l, results, i);
      i := i + 1;
      Append(context, used, Copied(line));
      HoldingMore(old(context[..]), p.text, Copied(line));
      used := used + |line|;
      tokens := tokens + lineTokens;
      kept := kept + 1;
    }
    PackedStops(l, results, i, |results|);
    NoneAfterFull(l, results, i);
  }

  /** A full context considers no further result, so none of them overruns. */
  lemma NoneAfterFull(l: Limits, contents: seq<string>, m: nat)
    requires m <= |contents| && NoOverrun(l, contents, m)
    requires m == |contents| || |Packed(l, contents, m).picked| >= l.topK
    ensures NoOverrun(l, contents, |contents|)
  {
    hide Packed, LineOf, Fits;
    forall i: nat | m <= i < |contents| ensures !Overruns(l, contents, i) {
      PackedStops(l, contents, m, i);
    }
  }

  lemma NothingPacked(l: Limits, contents: seq<string>, buffer: seq<char>, was: seq<char>)
    requires |was| > 0 && buffer == was[0 := NUL]
    ensures Packed(l, contents, 0) == Pack([], "", 0) && buffer == Holding(was, "")
  {
  }

  lemma PackOneMore(l: Limits, contents: seq<string>, i: nat)
    requires i < |contents|
    ensures Packed(l, contents, i + 1) == Considered(l, contents, Packed(l, contents, i), i)
  {
  }

  /** A buffer that holds a text starts with it and is terminated behind it. */
  lemma HoldsText(was: seq<char>, text: string)
    requires |text| < |was|
    ensures |Holding(was, text)| == |was| && Terminated(Holding(was, text), text)
  {
  }

  /** Once top_k lines are packed nothing more is. */
  lemma {:induction false} PackedStops(l: Limits, contents: seq<string>, m: nat, n: nat)
    requires m <= n <= |contents|
    requires m == n || |Packed(l, contents, m).picked| >= l.topK
    ensures Packed(l, contents, n) == Packed(l, contents, m)
  {
    hide *;
    if m < n {
      PackedStops(l, contents, m, n - 1);
      PackOneMore(l, contents, n - 1);
      FullStays(l, contents, Packed(l, contents, n - 1), n - 1);
    }
  }

  lemma FullStays(l: Limits, contents: seq<string>, p: Pack, i: nat)
    requires i < |contents| && |p.picked| >= l.topK
    ensures Considered(l, contents, p, i) == p
  {
  }
}
