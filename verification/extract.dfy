/** Text extraction (`extract_pdf_text` in test.py): the page text handed over
    by the PDF library is whitespace-normalised, and a failure of the library
    becomes an error string. */
module Extract {
  import opened Wrappers
  import opened Text

  /** Drops the leading whitespace: `str.lstrip()`, and also the maximal run
      of whitespace that the regular expression `\s+` matches at the front. */
  function TrimStart(s: string): (r: string)
    ensures |r| <= |s|
    ensures r == [] || !IsWhitespace(r[0])
    ensures forall i | 0 <= i < |s| - |r| :: IsWhitespace(s[i])
    ensures |s| > 0 && IsWhitespace(s[0]) ==> |r| < |s|
    decreases |s|
  {
    if |s| > 0 && IsWhitespace(s[0]) then TrimStart(s[1..]) else s
  }

  /** What `TrimStart` keeps is a suffix of its input. */
  lemma {:induction false} TrimStartSuffix(s: string)
    ensures TrimStart(s) == s[|s| - |TrimStart(s)|..]
    decreases |s|
  {
    if |s| > 0 && IsWhitespace(s[0]) {
      TrimStartSuffix(s[1..]);
    }
  }

  /** Drops the trailing whitespace: `str.rstrip()`. */
  function TrimEnd(s: string): (r: string)
    ensures |r| <= |s| && r == s[..|r|]
    ensures r == [] || !IsWhitespace(r[|r| - 1])
    ensures forall i | |r| <= i < |s| :: IsWhitespace(s[i])
    decreases |s|
  {
    if |s| > 0 && IsWhitespace(s[|s| - 1]) then TrimEnd(s[..|s| - 1]) else s
  }

  /** Positions `i` and `i + 1` of `s` are not both whitespace. */
  predicate NoSpaceRunAt(s: string, i: nat)
    requires i + 1 < |s|
  {
    !(IsWhitespace(s[i]) && IsWhitespace(s[i + 1]))
  }

  /** No two whitespace characters are adjacent and the only whitespace is ' '. */
  predicate SingleSpaced(s: string) {
    && (forall i | 0 <= i < |s| :: IsWhitespace(s[i]) ==> s[i] == ' ')
    && (forall i: nat | i + 1 < |s| :: NoSpaceRunAt(s, i))
  }

  /** `re.sub(r'\s+', ' ', s)`: every maximal run of whitespace becomes one space. */
  function Collapse(s: string): (r: string)
    ensures SingleSpaced(r)
    ensures r == [] <==> s == []
    ensures s != [] ==> (IsWhitespace(r[0]) <==> IsWhitespace(s[0]))
    decreases |s|
  {
    if s == [] then []
    else if IsWhitespace(s[0]) then
      var t := Collapse(TrimStart(s));
      SingleSpacedCons(' ', t);
      " " + t
    else
      var t := Collapse(s[1..]);
      SingleSpacedCons(s[0], t);
      [s[0]] + t
  }

  lemma SingleSpacedCons(c: char, t: string)
    requires SingleSpaced(t)
    requires IsWhitespace(c) ==> c == ' ' && (t == [] || !IsWhitespace(t[0]))
    ensures SingleSpaced([c] + t)
  {
    var s := [c] + t;
    forall i: nat | i + 1 < |s| ensures NoSpaceRunAt(s, i) {
      if i > 0 { assert NoSpaceRunAt(t, i - 1); }
    }
  }

  /** `r` is the slice of `s` at `i`, and everything of `s` before and after
      that slice is whitespace. */
  predicate StrippedAt(s: string, r: string, i: nat) {
    && i + |r| <= |s|
    && r == s[i..i + |r|]
    && (forall k | 0 <= k < i :: IsWhitespace(s[k]))
    && (forall k | i + |r| <= k < |s| :: IsWhitespace(s[k]))
  }

  /** `str.strip()`: removes only whitespace, and only at both ends, leaving
      neither end whitespace; a single-spaced text stays single-spaced. */
  function Strip(s: string): (r: string)
    ensures exists i: nat :: StrippedAt(s, r, i)
    ensures r == [] || (!IsWhitespace(r[0]) && !IsWhitespace(r[|r| - 1]))
    ensures SingleSpaced(s) ==> SingleSpaced(r)
  {
    StripSlice(s);
    if SingleSpaced(s) then StripSingleSpaced(s); TrimEnd(TrimStart(s))
    else TrimEnd(TrimStart(s))
  }

  /** What `Strip` keeps is a slice of its input between two whitespace runs. */
  lemma StripSlice(s: string)
    ensures StrippedAt(s, TrimEnd(TrimStart(s)), |s| - |TrimStart(s)|)
  {
    var t := TrimStart(s);
    var r := TrimEnd(t);
    var i := |s| - |t|;
    TrimStartSuffix(s);
    assert t == s[i..];
    forall k | i + |r| <= k < |s| ensures IsWhitespace(s[k]) {
      assert s[k] == t[k - i];
    }
  }

  /** Stripping a single-spaced text keeps it single-spaced. */
  lemma StripSingleSpaced(s: string)
    requires SingleSpaced(s)
    ensures SingleSpaced(TrimEnd(TrimStart(s)))
  {
    var t := TrimStart(s);
    assert SingleSpaced(t) by {
      TrimStartSuffix(s);
      SingleSpacedSlice(s, |s| - |t|, |s|);
      assert s[|s| - |t|..|s|] == s[|s| - |t|..];
    }
    SingleSpacedSlice(t, 0, |TrimEnd(t)|);
  }

  /** The normalisation of test.py:32, `re.sub(r'\s+', ' ', text).strip()`. */
  function Normalise(s: string): (r: string)
    ensures SingleSpaced(r)
    ensures r == [] || (!IsWhitespace(r[0]) && !IsWhitespace(r[|r| - 1]))
  {
    Strip(Collapse(s))
  }

  /** Every slice of a single-spaced text is single-spaced. */
  lemma SingleSpacedSlice(s: string, i: nat, j: nat)
    requires i <= j <= |s| && SingleSpaced(s)
    ensures SingleSpaced(s[i..j])
  {
    var t := s[i..j];
    forall k: nat | k + 1 < |t| ensures NoSpaceRunAt(t, k) {
      assert NoSpaceRunAt(s, i + k);
    }
  }

  // ---------------------------------------------------------------------------
  // Reference definition: the normalised text is the words of the input,
  // separated by single spaces.

  /** A word: a non-empty run of non-whitespace characters. */
  predicate IsWord(w: string) {
    w != [] && NoWhitespace(w)
  }

  /** The longest prefix of `s` that holds no whitespace. */
  function TakeWord(s: string): (w: string)
    ensures |w| <= |s| && w == s[..|w|]
    ensures NoWhitespace(w)
    ensures |w| == |s| || IsWhitespace(s[|w|])
    decreases |s|
  {
    if s == [] || IsWhitespace(s[0]) then [] else [s[0]] + TakeWord(s[1..])
  }

  /** The maximal whitespace-free runs of `s`, in order. */
  function Words(s: string): (ws: seq<string>)
    ensures forall k | 0 <= k < |ws| :: IsWord(ws[k])
    decreases |s|
  {
    var t := TrimStart(s);
    if t == [] then []
    else
      var w := TakeWord(t);
      [w] + Words(t[|w|..])
  }

  /** The words joined by single spaces (`' '.join(ws)`). */
  function JoinWords(ws: seq<string>): string
    decreases |ws|
  {
    if |ws| == 0 then []
    else if |ws| == 1 then ws[0]
    else ws[0] + " " + JoinWords(ws[1..])
  }

  lemma TrimStartFixed(s: string)
    requires s == [] || !IsWhitespace(s[0])
    ensures TrimStart(s) == s
  {
  }

  lemma TrimStartSpace(s: string)
    ensures TrimStart(" " + s) == TrimStart(s)
  {
    assert (" " + s)[1..] == s;
  }

  /** Words only looks past leading whitespace. */
  lemma WordsTrimStart(s: string)
    ensures Words(TrimStart(s)) == Words(s)
  {
    TrimStartFixed(TrimStart(s));
  }

  /** Collapsing commutes with dropping the leading whitespace. */
  lemma CollapseTrimStart(s: string)
    ensures TrimStart(Collapse(s)) == Collapse(TrimStart(s))
  {
    if s != [] && IsWhitespace(s[0]) {
      var t := TrimStart(s);
      TrimStartSpace(Collapse(t));
      TrimStartFixed(Collapse(t));
    } else {
      TrimStartFixed(s);
      TrimStartFixed(Collapse(s));
    }
  }

  /** Collapsing a text that starts with a word keeps that word intact. */
  lemma {:induction false} CollapseWord(s: string)
    ensures Collapse(s) == TakeWord(s) + Collapse(s[|TakeWord(s)|..])
    decreases |s|
  {
    if s != [] && !IsWhitespace(s[0]) {
      var w, c := TakeWord(s[1..]), Collapse(s[1..]);
      var rest := s[1..][|w|..];
      CollapseWord(s[1..]);
      assert c == w + Collapse(rest);
      assert TakeWord(s) == [s[0]] + w;
      assert s[|TakeWord(s)|..] == rest;
      calc {
        Collapse(s);
        [s[0]] + c;
        [s[0]] + (w + Collapse(rest));
        ([s[0]] + w) + Collapse(rest);
      }
    } else {
      assert TakeWord(s) == [];
      assert s[0..] == s;
    }
  }

  /** Trailing whitespace after something that survives trimming is all that goes. */
  lemma {:induction false} TrimEndAppend(a: string, c: string)
    requires TrimEnd(c) != []
    ensures TrimEnd(a + c) == a + TrimEnd(c)
    decreases |c|
  {
    if IsWhitespace(c[|c| - 1]) {
      assert (a + c)[..|a + c| - 1] == a + c[..|c| - 1];
      TrimEndAppend(a, c[..|c| - 1]);
    }
  }

  /** A text that starts with a word: the word, then the rest. */
  lemma SplitFirstWord(t: string)
    requires t != [] && !IsWhitespace(t[0])
    ensures TakeWord(t) != []
    ensures Words(t) == [TakeWord(t)] + Words(t[|TakeWord(t)|..])
    ensures Collapse(t) == TakeWord(t) + Collapse(t[|TakeWord(t)|..])
  {
    TrimStartFixed(t);
    CollapseWord(t);
  }

  lemma TrimEndWord(w: string)
    requires IsWord(w)
    ensures TrimEnd(w) == w && TrimEnd(w + " ") == w
  {
    assert (w + " ")[..|w|] == w;
  }

  lemma JoinCons(w: string, ws: seq<string>)
    requires ws != []
    ensures JoinWords([w] + ws) == w + " " + JoinWords(ws)
  {
    assert ([w] + ws)[1..] == ws;
  }

  /** The inductive step: a word, whitespace, and a text starting with a word. */
  lemma CollapseTrimEndStep(w: string, rest: string)
    requires IsWord(w) && rest != [] && IsWhitespace(rest[0])
    requires TrimStart(rest) != []
    requires TrimEnd(Collapse(TrimStart(rest))) == JoinWords(Words(TrimStart(rest)))
    ensures TrimEnd(w + Collapse(rest)) == JoinWords([w] + Words(rest))
  {
    var u := TrimStart(rest);
    var ws := Words(u);
    assert Words(rest) == ws by { WordsTrimStart(rest); }
    assert ws != [] by { TrimStartFixed(u); }
    assert w + Collapse(rest) == (w + " ") + Collapse(u);
    assert TrimEnd(Collapse(u)) != [];
    assert TrimEnd(w + Collapse(rest)) == (w + " ") + JoinWords(ws) by {
      TrimEndAppend(w + " ", Collapse(u));
    }
    JoinCons(w, ws);
  }

  lemma {:induction false} CollapseTrimEnd(t: string)
    requires t == [] || !IsWhitespace(t[0])
    ensures TrimEnd(Collapse(t)) == JoinWords(Words(t))
    decreases |t|
  {
    if t != [] {
      SplitFirstWord(t);
      var w := TakeWord(t);
      var rest := t[|w|..];
      var u := TrimStart(rest);
      TrimEndWord(w);
      if rest == [] {
        assert Words(rest) == [];
      } else if u == [] {
        WordsTrimStart(rest);
        assert Collapse(rest) == " ";
      } else {
        CollapseTrimEnd(u);
        CollapseTrimEndStep(w, rest);
      }
    }
  }

  /** Normalisation is exactly "the words of the text, separated by one space". */
  lemma NormaliseIsJoinedWords(s: string)
    ensures Normalise(s) == JoinWords(Words(s))
  {
    CollapseTrimStart(s);
    CollapseTrimEnd(TrimStart(s));
    WordsTrimStart(s);
  }

  lemma {:induction false} TakeWordAppend(w: string, x: string)
    requires NoWhitespace(w)
    requires x == [] || IsWhitespace(x[0])
    ensures TakeWord(w + x) == w
    decreases |w|
  {
    if w != [] {
      assert (w + x)[1..] == w[1..] + x;
      TakeWordAppend(w[1..], x);
    } else {
      assert w + x == x;
    }
  }

  /** Splitting single-space-joined words gives the words back. */
  lemma {:induction false} WordsOfJoin(ws: seq<string>)
    requires forall k | 0 <= k < |ws| :: IsWord(ws[k])
    ensures Words(JoinWords(ws)) == ws
    decreases |ws|
  {
    if |ws| == 1 {
      var w := ws[0];
      TrimStartFixed(w);
      TakeWordAppend(w, []);
      assert w + [] == w;
    } else if |ws| > 1 {
      var w, j := ws[0], JoinWords(ws[1..]);
      WordsOfJoin(ws[1..]);
      var s := w + " " + j;
      assert s == w + (" " + j);
      TrimStartFixed(s);
      TakeWordAppend(w, " " + j);
      assert s[|w|..] == " " + j;
      TrimStartSpace(j);
      WordsTrimStart(" " + j);
      WordsTrimStart(j);
    }
  }

  /** Normalising twice gives the same text as normalising once. */
  lemma NormaliseIdempotent(s: string)
    ensures Normalise(Normalise(s)) == Normalise(s)
  {
    NormaliseIsJoinedWords(s);
    NormaliseIsJoinedWords(Normalise(s));
    WordsOfJoin(Words(s));
  }

  /** Normalisation gives the empty text exactly when the input is all whitespace. */
  lemma NormaliseEmpty(s: string)
    ensures Normalise(s) == [] <==> forall i | 0 <= i < |s| :: IsWhitespace(s[i])
  {
    NormaliseIsJoinedWords(s);
    var t := TrimStart(s);
    if t != [] {
      TrimStartFixed(t);
      assert Words(s) != [] && Words(s)[0] != [];
      assert JoinWords(Words(s)) != [] by { JoinWordsStart(Words(s)); }
      TrimStartSuffix(s);
      assert !IsWhitespace(s[|s| - |t|]);
    }
  }

  lemma JoinWordsStart(ws: seq<string>)
    requires ws != []
    ensures StartsWith(JoinWords(ws), ws[0])
  {
    if |ws| > 1 {
      assert (ws[0] + " " + JoinWords(ws[1..]))[..|ws[0]|] == ws[0];
    }
  }

  // ---------------------------------------------------------------------------

  /** The shape of a normalised text. */
  predicate IsNormalised(s: string) {
    SingleSpaced(s) && (s == [] || (!IsWhitespace(s[0]) && !IsWhitespace(s[|s| - 1])))
  }

  const ExtractionErrorPrefix := "Error extracting text: "

  /** `extract_pdf_text`: `raw` is what the PDF library produced, either the
      concatenated text of all pages or the message of the exception it raised. */
  function ExtractPdfText(raw: Result<string>): (r: string)
    ensures raw.Failure? ==> StartsWith(r, ExtractionErrorPrefix) && r[|ExtractionErrorPrefix|..] == raw.message
    ensures raw.Failure? ==> Contains(r, "Error")
    ensures raw.Success? ==> IsNormalised(r) && r == JoinWords(Words(raw.value))
  {
    match raw
    case Success(text) =>
      NormaliseIsJoinedWords(text);
      Normalise(text)
    case Failure(msg) =>
      var r := ExtractionErrorPrefix + msg;
      PrefixContains(ExtractionErrorPrefix, msg, "Error");
      r
  }
}
