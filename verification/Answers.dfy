/** Answer normalisation and exact match of the question-answering evaluation
    (src/modules/benchmarks/agent_eval_memory_support.c, mem_eval_normalize_answer and
    mem_eval_answers_exact_match). Texts are sequences of non-zero bytes; letters and digits
    are those of the C locale. */
module Answers {
  type char8 = c: int | 0 < c < 256 witness 1

  const SPACE: char8 := 32
  const NUL: int := 0
  const NORM_SIZE: nat := 512

  predicate IsUpper(c: char8) {
    65 <= c <= 90
  }

  predicate IsAlnum(c: char8) {
    48 <= c <= 57 || IsUpper(c) || 97 <= c <= 122
  }

  function ToLower(c: char8): char8 {
    if IsUpper(c) then c + 32 else c
  }

  // ---- what normalisation means --------------------------------------------------------

  /** The first word of a text, lower case, and the rest behind it. */
  function Word(s: seq<char8>): (w: seq<char8>)
    ensures |w| <= |s|
  {
    if s == [] || !IsAlnum(s[0]) then [] else [ToLower(s[0])] + Word(s[1..])
  }

  function Words(s: seq<char8>): seq<seq<char8>>
    decreases |s|
  {
    if s == [] then []
    else if !IsAlnum(s[0]) then Words(s[1..])
    else [Word(s)] + Words(s[|Word(s)|..])
  }

  function JoinWords(ws: seq<seq<char8>>): seq<char8> {
    if ws == [] then []
    else if |ws| == 1 then ws[0]
    else ws[0] + [SPACE] + JoinWords(ws[1..])
  }

  function DropTrailing(s: seq<char8>): (t: seq<char8>)
    ensures |t| <= |s| && t == s[..|t|]
    ensures t != [] ==> t[|t| - 1] != SPACE
  {
    if s != [] && s[|s| - 1] == SPACE then DropTrailing(s[..|s| - 1]) else s
  }

  /** What a buffer of a size can hold of a text. */
  function Cut(t: seq<char8>, size: nat): seq<char8>
    requires size > 0
  {
    if |t| < size then t else t[..size - 1]
  }

  /** Lower-case words joined by single spaces, cut to what the buffer holds, without a space
      at the cut. */
  function Normal(s: seq<char8>, size: nat): seq<char8>
    requires size > 0
  {
    DropTrailing(Cut(JoinWords(Words(s)), size))
  }

  // ---- the same, one character at a time -------------------------------------------------

  /** What the loop of the source writes for a text into an unbounded buffer; gap says that
      a space would be redundant. */
  function Stream(s: seq<char8>, gap: bool): seq<char8> {
    if s == [] then []
    else if IsAlnum(s[0]) then [ToLower(s[0])] + Stream(s[1..], false)
    else if gap then Stream(s[1..], true)
    else [SPACE] + Stream(s[1..], true)
  }

  /** Inside a word: the rest of it, then the gap behind it. */
  lemma {:induction false} StreamOfWord(s: seq<char8>)
    ensures var rest := s[|Word(s)|..];
      Stream(s, false) == Word(s) + (if rest == [] then [] else [SPACE] + Stream(rest[1..], true))
    ensures var rest := s[|Word(s)|..]; rest != [] ==> !IsAlnum(rest[0])
  {
    if s != [] && IsAlnum(s[0]) {
      StreamOfWord(s[1..]);
      assert s[1..][|Word(s[1..])|..] == s[|Word(s)|..];
    }
  }

  lemma FirstWord(s: seq<char8>)
    requires s != [] && IsAlnum(s[0])
    ensures var rest := s[|Word(s)|..];
      && Word(s) != [] && Words(s) == [Word(s)] + Words(rest)
      && (rest != [] ==> Words(rest) == Words(rest[1..]))
      && Stream(s, true) == Word(s) + (if rest == [] then [] else [SPACE] + Stream(rest[1..], true))
  {
    StreamOfWord(s[1..]);
    assert s[1..][|Word(s[1..])|..] == s[|Word(s)|..];
    StreamOfWord(s);
  }

  lemma JoinMore(w: seq<char8>, ws: seq<seq<char8>>)
    ensures JoinWords([w] + ws) == if ws == [] then w else w + [SPACE] + JoinWords(ws)
  {
    assert ([w] + ws)[1..] == ws;
  }

  /** The stream is the joined words, with one more space when something follows the last. */
  lemma {:induction false} StreamIsJoined(s: seq<char8>)
    ensures var j := JoinWords(Words(s));
      Stream(s, true) == j || (Words(s) != [] && Stream(s, true) == j + [SPACE])
    ensures Words(s) == [] <==> Stream(s, true) == []
    decreases |s|
  {
    if s != [] && !IsAlnum(s[0]) {
      StreamIsJoined(s[1..]);
    } else if s != [] {
      hide JoinWords, Words, Stream, Word;
      var rest := s[|Word(s)|..];
      FirstWord(s);
      JoinMore(Word(s), Words(rest));
      if rest != [] {
        StreamIsJoined(rest[1..]);
      } else {
        NothingJoined();
      }
    } else {
      NothingJoined();
    }
  }

  lemma NothingJoined()
    ensures Words([]) == [] && JoinWords([]) == [] && Stream([], true) == []
  {
  }

  // ---- normal forms --------------------------------------------------------------------------

  ghost predicate Clean(t: seq<char8>) {
    && (forall i :: 0 <= i < |t| ==> t[i] == SPACE || (IsAlnum(t[i]) && !IsUpper(t[i])))
    && (forall i :: 0 <= i < |t| - 1 ==> t[i] != SPACE || t[i + 1] != SPACE)
  }

  /** Lower-case letters, digits and single inner spaces only. */
  ghost predicate IsNormal(t: seq<char8>) {
    Clean(t) && (t != [] ==> t[0] != SPACE && t[|t| - 1] != SPACE)
  }

  lemma {:induction false} StreamIsClean(s: seq<char8>, gap: bool)
    ensures Clean(Stream(s, gap))
    ensures gap && Stream(s, gap) != [] ==> Stream(s, gap)[0] != SPACE
  {
    if s != [] {
      StreamIsClean(s[1..], false);
      StreamIsClean(s[1..], true);
      var rest := if IsAlnum(s[0]) then Stream(s[1..], false) else Stream(s[1..], true);
      var t := Stream(s, gap);
      if t != rest {
        assert t[1..] == rest;
        forall i | 0 <= i < |t| ensures t[i] == SPACE || (IsAlnum(t[i]) && !IsUpper(t[i])) {
          assert i > 0 ==> t[i] == rest[i - 1];
        }
        forall i | 0 <= i < |t| - 1 ensures t[i] != SPACE || t[i + 1] != SPACE {
          assert t[i + 1] == rest[i] && (i > 0 ==> t[i] == rest[i - 1]);
        }
      }
    }
  }

  lemma PrefixIsClean(t: seq<char8>, n: nat)
    requires Clean(t) && n <= |t|
    ensures Clean(t[..n])
  {
  }

  /** A text already in normal form passes through unchanged. */
  lemma {:induction false} StreamOfClean(t: seq<char8>, gap: bool)
    requires Clean(t) && (gap && t != [] ==> t[0] != SPACE)
    ensures Stream(t, gap) == t
  {
    if t != [] {
      assert t[1..] != [] && t[0] == SPACE ==> t[1] != SPACE;
      assert t == [t[0]] + t[1..];
      StreamOfClean(t[1..], t[0] == SPACE);
    }
  }

  /** Cutting the stream and cutting the joined words leaves the same text. */
  lemma NormalIsCutStream(s: seq<char8>, size: nat)
    requires size > 0
    ensures Normal(s, size) == DropTrailing(Cut(Stream(s, true), size))
  {
    hide Words, JoinWords, Stream;
    var t, j := Stream(s, true), JoinWords(Words(s));
    StreamIsJoined(s);
    if t == j + [SPACE] {
      if |t| < size {
        assert t[..|t| - 1] == j;
      } else {
        assert t[..size - 1] == j[..size - 1];
        assert |j| < size ==> j[..size - 1] == j;
      }
    }
  }

  /** Whatever the text and the buffer, the result is in normal form and fits. */
  lemma NormalIsNormal(s: seq<char8>, size: nat)
    requires size > 0
    ensures IsNormal(Normal(s, size)) && |Normal(s, size)| < size
  {
    hide Normal, Stream;
    var t := Stream(s, true);
    NormalIsCutStream(s, size);
    StreamIsClean(s, true);
    var cut := Cut(t, size);
    assert cut == t[..|cut|];
    PrefixIsClean(t, |cut|);
    PrefixIsClean(cut, |DropTrailing(cut)|);
  }

  /** Normal forms that fit are exactly the fixed points. */
  lemma FixedPointsAreNormal(t: seq<char8>, size: nat)
    requires size > 0
    ensures Normal(t, size) == t <==> IsNormal(t) && |t| < size
  {
    hide Normal;
    NormalIsNormal(t, size);
    if IsNormal(t) && |t| < size {
      NormalIsCutStream(t, size);
      StreamOfClean(t, true);
    }
  }

  /** Normalising twice into buffers of one size changes nothing. */
  lemma NormalIsIdempotent(s: seq<char8>, size: nat)
    requires size > 0
    ensures Normal(Normal(s, size), size) == Normal(s, size)
  {
    hide Normal;
    NormalIsNormal(s, size);
    FixedPointsAreNormal(Normal(s, size), size);
  }

  /** It is the longest beginning of the joined words that the buffer holds and that does not end in
      a space. */
  lemma NormalIsLongest(s: seq<char8>, size: nat, n: nat)
    requires size > 0
    ensures var j, t := JoinWords(Words(s)), Normal(s, size);
      && |t| <= |j| && t == j[..|t|] && |t| < size && (t != [] ==> t[|t| - 1] != SPACE)
      && (n <= |j| && n < size && (n > 0 ==> j[n - 1] != SPACE) ==> n <= |t|)
  {
    hide Words, JoinWords;
    var j := JoinWords(Words(s));
    var cut := Cut(j, size);
    assert cut == j[..|cut|];
    if n <= |cut| && (n > 0 ==> j[n - 1] != SPACE) {
      DropsOnlySpaces(cut, n);
    }
  }

  lemma {:induction false} DropsOnlySpaces(t: seq<char8>, n: nat)
    requires n <= |t| && (n > 0 ==> t[n - 1] != SPACE)
    ensures n <= |DropTrailing(t)|
  {
    if t != [] && t[|t| - 1] == SPACE {
      DropsOnlySpaces(t[..|t| - 1], n);
    }
  }

  // ---- what a word is ------------------------------------------------------------------------

  /** ASCII digits and letters. */
  predicate WordByte(c: char8) {
    48 <= c <= 57 || 65 <= c <= 90 || 97 <= c <= 122
  }

  function Lowered(w: seq<char8>): (l: seq<char8>)
    ensures |l| == |w|
  {
    seq(|w|, i requires 0 <= i < |w| => if 65 <= w[i] <= 90 then w[i] + 32 else w[i])
  }

  /** Digits and letters in a row are one word, with its capitals made small. */
  lemma OneWord(w: seq<char8>)
    requires w != [] && forall i :: 0 <= i < |w| ==> WordByte(w[i])
    ensures Words(w) == [Lowered(w)]
  {
    WordBefore(w, []);
    assert w + [] == w && w[|w|..] == [];
    assert Words([]) == [];
    assert Words(w) == [Word(w)] + Words(w[|Word(w)|..]);
  }

  lemma {:induction false} WordBefore(w: seq<char8>, rest: seq<char8>)
    requires (forall i :: 0 <= i < |w| ==> WordByte(w[i])) && (rest != [] ==> !WordByte(rest[0]))
    ensures Word(w + rest) == Lowered(w)
  {
    if w == [] {
      assert w + rest == rest;
    } else {
      WordBefore(w[1..], rest);
      assert (w + rest)[1..] == w[1..] + rest;
      assert Lowered(w) == [Lowered(w)[0]] + Lowered(w[1..]);
    }
  }

  /** Any other byte separates words. */
  lemma {:induction false} WordsApart(a: seq<char8>, separator: char8, b: seq<char8>)
    requires !WordByte(separator)
    ensures Words(a + [separator] + b) == Words(a) + Words(b)
    decreases |a|
  {
    var s := a + [separator] + b;
    if a == [] {
      assert s[1..] == b && Words(a) + Words(b) == Words(b);
    } else if !WordByte(a[0]) {
      WordsApart(a[1..], separator, b);
      assert s[1..] == a[1..] + [separator] + b;
    } else {
      var n := |Word(a)|;
      WordStops(a, [separator] + b);
      assert a + ([separator] + b) == s && s[n..] == a[n..] + [separator] + b;
      WordsApart(a[n..], separator, b);
      assert Words(a) == [Word(a)] + Words(a[n..]);
      assert [Word(a)] + (Words(a[n..]) + Words(b)) == Words(a) + Words(b);
    }
  }

  lemma {:induction false} WordStops(a: seq<char8>, rest: seq<char8>)
    requires rest != [] && !WordByte(rest[0])
    ensures Word(a + rest) == Word(a)
  {
    if a == [] {
      assert a + rest == rest;
    } else {
      WordStops(a[1..], rest);
      assert (a + rest)[1..] == a[1..] + rest;
    }
  }

  // ---- exact match ---------------------------------------------------------------------------

  predicate Match(gold: seq<char8>, candidate: seq<char8>) {
    Normal(gold, NORM_SIZE) != [] && Normal(gold, NORM_SIZE) == Normal(candidate, NORM_SIZE)
  }

  ghost predicate HasWord(s: seq<char8>) {
    exists i :: 0 <= i < |s| && IsAlnum(s[i])
  }

  lemma {:induction false} StreamEmpty(s: seq<char8>)
    ensures Stream(s, true) == [] <==> !HasWord(s)
  {
    if s != [] {
      StreamEmpty(s[1..]);
      if i :| 0 <= i < |s| && IsAlnum(s[i]) {
        assert i > 0 ==> s[1..][i - 1] == s[i];
      }
      if HasWord(s[1..]) {
        var i :| 0 <= i < |s[1..]| && IsAlnum(s[1..][i]);
        assert IsAlnum(s[i + 1]);
      }
    }
  }

  lemma NormalEmpty(s: seq<char8>, size: nat)
    requires size > 1
    ensures Normal(s, size) == [] <==> !HasWord(s)
  {
    hide Normal, Stream;
    NormalIsCutStream(s, size);
    StreamEmpty(s);
    StreamIsClean(s, true);
    KeepsFirst(Cut(Stream(s, true), size));
  }

  lemma {:induction false} KeepsFirst(t: seq<char8>)
    requires t != [] ==> t[0] != SPACE
    ensures t != [] ==> DropTrailing(t) != []
  {
    if t != [] && t[|t| - 1] == SPACE {
      KeepsFirst(t[..|t| - 1]);
    }
  }

  /** Exact match is an equivalence on the answers that contain a letter or digit, and never
      holds of any other. */
  lemma MatchIsEquivalence(a: seq<char8>, b: seq<char8>, c: seq<char8>)
    ensures Match(a, a) <==> HasWord(a)
    ensures Match(a, b) ==> HasWord(a) && HasWord(b)
    ensures Match(a, b) <==> Match(b, a)
    ensures Match(a, b) && Match(b, c) ==> Match(a, c)
  {
    hide Normal;
    NormalEmpty(a, NORM_SIZE);
    NormalEmpty(b, NORM_SIZE);
  }

  ghost predicate ProperWords(ws: seq<seq<char8>>) {
    forall i :: 0 <= i < |ws| ==> ProperWord(ws[i])
  }

  ghost predicate ProperWord(w: seq<char8>) {
    w != [] && forall i :: 0 <= i < |w| ==> IsAlnum(w[i]) && !IsUpper(w[i])
  }

  lemma {:induction false} WordIsProper(s: seq<char8>)
    ensures forall i :: 0 <= i < |Word(s)| ==> IsAlnum(Word(s)[i]) && !IsUpper(Word(s)[i])
  {
    if s != [] && IsAlnum(s[0]) {
      WordIsProper(s[1..]);
    }
  }

  lemma {:induction false} WordsAreProper(s: seq<char8>)
    ensures ProperWords(Words(s))
    decreases |s|
  {
    if s != [] {
      if IsAlnum(s[0]) {
        WordIsProper(s);
        WordsAreProper(s[|Word(s)|..]);
      } else {
        WordsAreProper(s[1..]);
      }
    }
  }

  lemma {:induction false} WordOfConcat(w: seq<char8>, rest: seq<char8>)
    requires forall i :: 0 <= i < |w| ==> IsAlnum(w[i]) && !IsUpper(w[i])
    requires rest != [] ==> !IsAlnum(rest[0])
    ensures Word(w + rest) == w
  {
    if w == [] {
      assert w + rest == rest;
    } else {
      WordOfConcat(w[1..], rest);
      assert (w + rest)[1..] == w[1..] + rest;
    }
  }

  /** Joining loses nothing: the words of joined words are those words. */
  lemma {:induction false} WordsOfJoin(ws: seq<seq<char8>>)
    requires ProperWords(ws)
    ensures Words(JoinWords(ws)) == ws
  {
    if ws != [] {
      var w := ws[0];
      assert ProperWord(w);
      var j := JoinWords(ws);
      var rest := if |ws| == 1 then [] else [SPACE] + JoinWords(ws[1..]);
      assert j == w + rest;
      WordOfConcat(w, rest);
      assert j[|w|..] == rest;
      WordsOfJoin(ws[1..]);
      if |ws| > 1 {
        assert rest[1..] == JoinWords(ws[1..]);
        assert Words(rest) == ws[1..];
      }
      assert ws == [w] + ws[1..];
    }
  }

  /** For answers whose joined words fit, exact match means having the same words. */
  lemma MatchMeansSameWords(a: seq<char8>, b: seq<char8>)
    requires |JoinWords(Words(a))| < NORM_SIZE && |JoinWords(Words(b))| < NORM_SIZE
    ensures Match(a, b) <==> Words(a) != [] && Words(a) == Words(b)
  {
    hide Words, JoinWords;
    WordsAreProper(a);
    WordsAreProper(b);
    WordsOfJoin(Words(a));
    WordsOfJoin(Words(b));
    JoinedIsNormal(a);
    JoinedIsNormal(b);
  }

  lemma JoinedIsNormal(s: seq<char8>)
    ensures var j := JoinWords(Words(s)); DropTrailing(j) == j && (j == [] <==> Words(s) == [])
  {
    hide Words, JoinWords;
    WordsAreProper(s);
    EndsInWord(Words(s));
    JoinNotEmpty(s);
  }

  lemma JoinNotEmpty(s: seq<char8>)
    ensures JoinWords(Words(s)) == [] <==> Words(s) == []
  {
    WordsAreProper(s);
    var ws := Words(s);
    if ws != [] {
      assert ProperWord(ws[0]);
    }
  }

  lemma {:induction false} EndsInWord(ws: seq<seq<char8>>)
    requires ProperWords(ws)
    ensures ws != [] ==> JoinWords(ws) != [] && JoinWords(ws)[|JoinWords(ws)| - 1] != SPACE
  {
    if ws != [] {
      assert ProperWord(ws[0]);
      if |ws| > 1 {
        EndsInWord(ws[1..]);
      }
    }
  }

  // ---- the imperative code ---------------------------------------------------------------------

  /** A buffer that holds a terminated text. */
  ghost predicate Holds(buffer: seq<int>, text: seq<char8>) {
    |text| < |buffer| && buffer[..|text|] == text && buffer[|text|] == NUL
  }

  /** The first loop: the stream, as far as the buffer goes. */
  method WriteStream(src: seq<char8>, dst: array<int>) returns (used: nat)
    requires dst.Length > 0
    modifies dst
    ensures used < dst.Length && dst[..used] == Cut(Stream(src, true), dst.Length)
  {
    hide Stream;
    used := 0;
    var lastSpace := true;
    var p := 0;
    assert src[0..] == src;
    while p < |src| && used + 1 < dst.Length
      invariant 0 <= p <= |src| && 0 <= used < dst.Length
      invariant dst[..used] + Stream(src[p..], lastSpace) == Stream(src, true)
    {
      StreamStep(src[p..], lastSpace);
      assert src[p..][1..] == src[p + 1..];
      ghost var before := dst[..used];
      if IsAlnum(src[p]) {
        dst[used] := ToLower(src[p]);
        used := used + 1;
        lastSpace := false;
        assert dst[..used] == before + [ToLower(src[p])];
      } else if !lastSpace {
        dst[used] := SPACE;
        used := used + 1;
        lastSpace := true;
        assert dst[..used] == before + [SPACE];
      }
      p := p + 1;
    }
    if p == |src| {
      StreamOfNothing();
      assert dst[..used] + [] == dst[..used];
    }
  }

  /** The second loop: trailing spaces go, and the text is terminated. */
  method Terminate(dst: array<int>, length: nat, ghost t: seq<char8>)
    requires length < dst.Length && dst[..length] == t
    modifies dst
    ensures Holds(dst[..], DropTrailing(t))
  {
    var used := length;
    assert t[..length] == t;
    while used > 0 && dst[used - 1] == SPACE
      invariant 0 <= used <= length && dst[..used] == t[..used]
      invariant DropTrailing(t[..used]) == DropTrailing(t)
    {
      assert dst[..used][used - 1] == t[..used][used - 1];
      used := used - 1;
      assert t[..used + 1][..used] == t[..used];
      assert dst[..used] == dst[..used + 1][..used];
    }
    assert used > 0 ==> dst[..used][used - 1] == t[..used][used - 1];
    dst[used] := NUL;
    assert DropTrailing(t) == t[..used];
    assert dst[..][..used] == dst[..used];
  }

  /** mem_eval_normalize_answer; an absent source is an empty one. */
  method NormalizeAnswer(src: seq<char8>, dst: array<int>)
    modifies dst
    ensures dst.Length > 0 ==> Holds(dst[..], Normal(src, dst.Length))
  {
    hide Stream, Normal;
    if dst.Length == 0 {
      return;
    }
    NormalIsCutStream(src, dst.Length);
    dst[0] := NUL;
    if src == [] {
      StreamOfNothing();
      return;
    }
    var used := WriteStream(src, dst);
    Terminate(dst, used, Cut(Stream(src, true), dst.Length));
  }

  lemma StreamOfNothing()
    ensures Stream([], true) == [] && Stream([], false) == []
  {
  }

  lemma StreamStep(s: seq<char8>, gap: bool)
    requires s != []
    ensures Stream(s, gap) ==
      if IsAlnum(s[0]) then [ToLower(s[0])] + Stream(s[1..], false)
      else if gap then Stream(s[1..], true) else [SPACE] + Stream(s[1..], true)
  {
  }

  /** mem_eval_answers_exact_match. */
  method AnswersExactMatch(gold: seq<char8>, candidate: seq<char8>) returns (same: bool)
    ensures same <==> Match(gold, candidate)
  {
    hide Normal;
    var normGold := new int[NORM_SIZE];
    var normCandidate := new int[NORM_SIZE];
    NormalizeAnswer(gold, normGold);
    NormalizeAnswer(candidate, normCandidate);
    ghost var g, c := Normal(gold, NORM_SIZE), Normal(candidate, NORM_SIZE);
    FirstByte(normGold[..], g);
    if normGold[0] == NUL {
      return false;
    }
    same := SameText(normGold, normCandidate, g, c);
  }

  lemma FirstByte(buffer: seq<int>, text: seq<char8>)
    requires Holds(buffer, text)
    ensures buffer[0] == NUL <==> text == []
  {
    if text != [] {
      assert buffer[..|text|][0] == text[0];
    }
  }

  /** The comparison of two terminated texts. */
  method SameText(a: array<int>, b: array<int>, ghost s: seq<char8>, ghost t: seq<char8>) returns (same: bool)
    requires Holds(a[..], s) && Holds(b[..], t)
    ensures same <==> s == t
  {
    var i := 0;
    assert a[..][..|s|] == a[..|s|] && b[..][..|t|] == b[..|t|];
    while a[i] == b[i] && a[i] != NUL
      invariant 0 <= i <= |s| && i <= |t|
      invariant forall j :: 0 <= j < i ==> s[j] == t[j]
      decreases |s| - i
    {
      assert i < |s| ==> a[i] == a[..|s|][i] == s[i];
      assert i < |t| ==> b[i] == b[..|t|][i] == t[i];
      i := i + 1;
    }
    assert i < |s| ==> a[i] == a[..|s|][i] == s[i];
    assert i < |t| ==> b[i] == b[..|t|][i] == t[i];
    return a[i] == b[i];
  }
}
