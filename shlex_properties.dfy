/*
 * What the tokenizer and the quoter of src/shlex.ts guarantee, stated and
 * proved over the model in module Shlex.
 */
module ShlexProperties {
  import opened Shlex

  /** Feeding a non-empty string: one step, then the rest. */
  lemma FeedCons(mode: Mode, st: Scanner, c: char, rest: string)
    ensures Feed(mode, st, [c] + rest)
         == (Feed(mode, Step(mode, st, c).0, rest).0,
             Step(mode, st, c).1 + Feed(mode, Step(mode, st, c).0, rest).1)
  {
    assert ([c] + rest)[0] == c;
    assert ([c] + rest)[1..] == rest;
  }

  // ---------------------------------------------------------------------
  // Token sizes
  // ---------------------------------------------------------------------

  /** Combined length of a list of tokens. */
  function TotalLength(ts: seq<string>): nat
  {
    if ts == [] then 0 else |ts[0]| + TotalLength(ts[1..])
  }

  lemma {:induction false} TotalLengthAppend(a: seq<string>, b: seq<string>)
    ensures TotalLength(a + b) == TotalLength(a) + TotalLength(b)
    decreases |a|
  {
    if a == [] {
      assert a + b == b;
    } else {
      assert (a + b)[0] == a[0];
      assert (a + b)[1..] == a[1..] + b;
      TotalLengthAppend(a[1..], b);
    }
  }

  /**
   * Characters the state holds that may still reach a token: the token text
   * and a pending escape character.
   */
  function Weight(st: Scanner): nat
  {
    |OrEmpty(st.token)| + (if st.escapeChar.Some? then 1 else 0)
  }

  /**
   * A token is yielded only at a separator outside quotes and escapes, and
   * it is the pending one; any other character leaves the token a prefix of
   * the new one, longer by at most two characters.
   */
  lemma StepYields(mode: Mode, st: Scanner, c: char)
    ensures var (st1, out) := Step(mode, st, c);
      out != [] ==> st.escapeChar.None? && st.quoteChar.None? && IsWhitespace(c)
                    && out == Pending(st) && st1.token.None?
    ensures var (st1, out) := Step(mode, st, c);
      out == [] ==> OrEmpty(st.token) <= OrEmpty(st1.token) && |OrEmpty(st1.token)| <= |OrEmpty(st.token)| + 2
  {
  }

  /** One character adds at most one character to what is held or yielded. */
  lemma StepBounds(mode: Mode, st: Scanner, c: char)
    requires st.token != Some([])
    ensures Step(mode, st, c).0.token != Some([])
    ensures forall t | t in Step(mode, st, c).1 :: t != []
    ensures TotalLength(Step(mode, st, c).1) + Weight(Step(mode, st, c).0) <= 1 + Weight(st)
  {
    var out := Step(mode, st, c).1;
    if out != [] {
      assert out == [st.token.value];
      assert out[1..] == [];
    }
  }

  lemma {:induction false} FeedBounds(mode: Mode, st: Scanner, s: string)
    requires st.token != Some([])
    ensures Feed(mode, st, s).0.token != Some([])
    ensures forall t | t in Feed(mode, st, s).1 :: t != []
    ensures TotalLength(Feed(mode, st, s).1) + Weight(Feed(mode, st, s).0) <= |s| + Weight(st)
    decreases |s|
  {
    if s != [] {
      var (st1, out1) := Step(mode, st, s[0]);
      StepBounds(mode, st, s[0]);
      FeedBounds(mode, st1, s[1..]);
      TotalLengthAppend(out1, Feed(mode, st1, s[1..]).1);
    }
  }

  /**
   * No yielded token is empty (a token only starts when a character is
   * appended), and the tokens together are never longer than the input.
   */
  lemma TokensBounds(mode: Mode, s: string)
    ensures forall t | t in Tokens(mode, s) :: t != []
    ensures TotalLength(Tokens(mode, s)) <= |s|
  {
    var (st, out) := Feed(mode, Start(mode), s);
    FeedBounds(mode, Start(mode), s);
    TotalLengthAppend(out, Pending(st));
    if st.token.Some? {
      assert Pending(st)[1..] == [];
    }
  }

  lemma {:induction false} CountWithinLength(ts: seq<string>)
    requires forall t | t in ts :: t != []
    ensures |ts| <= TotalLength(ts)
    decreases |ts|
  {
    if ts != [] {
      assert ts[0] in ts;
      assert forall t | t in ts[1..] :: t in ts;
      CountWithinLength(ts[1..]);
    }
  }

  /** There are never more tokens than input characters. */
  lemma TokensCount(mode: Mode, s: string)
    ensures |Tokens(mode, s)| <= |s|
  {
    TokensBounds(mode, s);
    CountWithinLength(Tokens(mode, s));
  }

  // ---------------------------------------------------------------------
  // Input without quote or escape characters: whitespace splitting
  // ---------------------------------------------------------------------

  predicate NoWhitespace(s: string)
  {
    forall i :: 0 <= i < |s| ==> !IsWhitespace(s[i])
  }

  /** Length of the longest prefix of `s` without whitespace. */
  function WordLength(s: string): (n: nat)
    ensures n <= |s|
    ensures forall i :: 0 <= i < n ==> !IsWhitespace(s[i])
    ensures n == |s| || IsWhitespace(s[n])
  {
    if s == [] || IsWhitespace(s[0]) then 0 else 1 + WordLength(s[1..])
  }

  /**
   * Reference definition: the maximal runs of non-whitespace characters of
   * `s`, from left to right.
   */
  function Words(s: string): (ws: seq<string>)
    ensures forall w | w in ws :: w != [] && NoWhitespace(w)
    decreases |s|
  {
    if s == [] then []
    else if IsWhitespace(s[0]) then Words(s[1..])
    else
      var n := WordLength(s);
      [s[..n]] + Words(s[n..])
  }

  lemma {:induction false} WordLengthOf(t: string, r: string)
    requires NoWhitespace(t)
    requires r == [] || IsWhitespace(r[0])
    ensures WordLength(t + r) == |t|
    decreases |t|
  {
    if t == [] {
      assert t + r == r;
    } else {
      assert (t + r)[0] == t[0];
      assert (t + r)[1..] == t[1..] + r;
      WordLengthOf(t[1..], r);
    }
  }

  /** A whitespace-free word followed by whitespace or nothing is the first word. */
  lemma WordsLead(t: string, r: string)
    requires t != [] && NoWhitespace(t)
    requires r == [] || IsWhitespace(r[0])
    ensures Words(t + r) == [t] + Words(r)
  {
    var s := t + r;
    assert s[0] == t[0];
    WordLengthOf(t, r);
    assert s[..|t|] == t;
    assert s[|t|..] == r;
  }

  /** Characters that mean nothing special at the start of the input. */
  predicate Plain(mode: Mode, s: string)
  {
    forall i :: 0 <= i < |s| ==> s[i] !in QuoteChars(mode) && s[i] !in DefaultEscapeChars(mode)
  }

  /** Outside quotes and escapes, an ordinary character either ends the token or extends it. */
  lemma StepPlain(mode: Mode, st: Scanner, c: char)
    requires st.quoteChar.None? && st.escapeChar.None?
    requires c !in QuoteChars(mode) && c !in st.escapeChars
    ensures Step(mode, st, c)
         == if IsWhitespace(c) then (st.(token := None), Pending(st)) else (Append(st, [c]), [])
  {
  }

  /** How the words change when one more character follows a pending token. */
  lemma WordsAfter(token: Option<string>, c: char, rest: string)
    requires token.Some? ==> token.value != [] && NoWhitespace(token.value)
    ensures IsWhitespace(c) ==>
      Words(OrEmpty(token) + ([c] + rest)) == (if token.Some? then [token.value] else []) + Words(rest)
    ensures !IsWhitespace(c) ==> Words(OrEmpty(token) + ([c] + rest)) == Words((OrEmpty(token) + [c]) + rest)
  {
    var t := OrEmpty(token);
    if IsWhitespace(c) {
      assert ([c] + rest)[1..] == rest;
      if token.Some? {
        WordsLead(t, [c] + rest);
      } else {
        assert t + ([c] + rest) == [c] + rest;
      }
    } else {
      assert t + ([c] + rest) == (t + [c]) + rest;
    }
  }

  /** A separator outside quotes and escapes yields the pending token and starts afresh. */
  lemma FeedPlainSpace(mode: Mode, st: Scanner, c: char, rest: string)
    requires st.quoteChar.None? && st.escapeChar.None?
    requires c !in QuoteChars(mode) && c !in st.escapeChars && IsWhitespace(c)
    requires st.token.Some? ==> st.token.value != [] && NoWhitespace(st.token.value)
    requires Feed(mode, st.(token := None), rest).1 + Pending(Feed(mode, st.(token := None), rest).0)
          == Words(rest)
    ensures Feed(mode, st, [c] + rest).1 + Pending(Feed(mode, st, [c] + rest).0)
         == Words(OrEmpty(st.token) + ([c] + rest))
  {
    FeedCons(mode, st, c, rest);
    StepPlain(mode, st, c);
    WordsAfter(st.token, c, rest);
    var (fin, out2) := Feed(mode, st.(token := None), rest);
    assert Pending(st) + out2 + Pending(fin) == Pending(st) + (out2 + Pending(fin));
  }

  /** A non-separator outside quotes and escapes extends the token. */
  lemma FeedPlainChar(mode: Mode, st: Scanner, c: char, rest: string)
    requires st.quoteChar.None? && st.escapeChar.None?
    requires c !in QuoteChars(mode) && c !in st.escapeChars && !IsWhitespace(c)
    requires st.token.Some? ==> st.token.value != [] && NoWhitespace(st.token.value)
    requires Feed(mode, Append(st, [c]), rest).1 + Pending(Feed(mode, Append(st, [c]), rest).0)
          == Words((OrEmpty(st.token) + [c]) + rest)
    ensures Feed(mode, st, [c] + rest).1 + Pending(Feed(mode, st, [c] + rest).0)
         == Words(OrEmpty(st.token) + ([c] + rest))
  {
    FeedCons(mode, st, c, rest);
    StepPlain(mode, st, c);
    WordsAfter(st.token, c, rest);
    assert [] + Feed(mode, Append(st, [c]), rest).1 == Feed(mode, Append(st, [c]), rest).1;
  }

  lemma {:induction false} FeedPlain(mode: Mode, st: Scanner, s: string)
    requires st.quoteChar.None? && st.escapeChar.None?
    requires forall i :: 0 <= i < |s| ==> s[i] !in QuoteChars(mode) && s[i] !in st.escapeChars
    requires st.token.Some? ==> st.token.value != [] && NoWhitespace(st.token.value)
    ensures Feed(mode, st, s).1 + Pending(Feed(mode, st, s).0) == Words(OrEmpty(st.token) + s)
    decreases |s|
  {
    if s == [] {
      assert OrEmpty(st.token) + s == OrEmpty(st.token);
      if st.token.Some? {
        WordsLead(st.token.value, []);
        assert st.token.value + [] == st.token.value;
      }
    } else {
      var c, rest := s[0], s[1..];
      assert s == [c] + rest;
      if IsWhitespace(c) {
        FeedPlain(mode, st.(token := None), rest);
        assert OrEmpty(st.(token := None).token) + rest == rest;
        FeedPlainSpace(mode, st, c, rest);
      } else {
        var st1 := Append(st, [c]);
        FeedPlain(mode, st1, rest);
        FeedPlainChar(mode, st, c, rest);
      }
    }
  }

  /**
   * With no quote character and no escape character of the dialect in the
   * input, the tokens are exactly the maximal runs of non-whitespace.
   */
  lemma TokensOfPlain(mode: Mode, s: string)
    requires Plain(mode, s)
    ensures Tokens(mode, s) == Words(s)
  {
    FeedPlain(mode, Start(mode), s);
    assert OrEmpty(Start(mode).token) + s == s;
  }

  // ---------------------------------------------------------------------
  // Literal characters and quoted runs
  // ---------------------------------------------------------------------

  /**
   * A character the state appends to the token unchanged: it starts no
   * escape, and it neither closes the open quote nor, outside quotes, opens
   * one or separates tokens. Whitespace is literal inside a quote.
   */
  predicate Literal(mode: Mode, st: Scanner, c: char)
  {
    c !in st.escapeChars &&
    if st.quoteChar.Some? then c != st.quoteChar.value
    else c !in QuoteChars(mode) && !IsWhitespace(c)
  }

  lemma {:induction false} FeedLiteral(mode: Mode, st: Scanner, w: string, rest: string)
    requires st.escapeChar.None? && st.token.Some?
    requires forall i :: 0 <= i < |w| ==> Literal(mode, st, w[i])
    ensures Feed(mode, st, w + rest) == Feed(mode, Append(st, w), rest)
    decreases |w|
  {
    if w == [] {
      assert w + rest == rest;
      assert st.token.value + w == st.token.value;
    } else {
      var st1 := Append(st, [w[0]]);
      assert w + rest == [w[0]] + (w[1..] + rest);
      assert Step(mode, st, w[0]) == (st1, []);
      FeedCons(mode, st, w[0], w[1..] + rest);
      assert [] + Feed(mode, st1, w[1..] + rest).1 == Feed(mode, st1, w[1..] + rest).1;
      FeedLiteral(mode, st1, w[1..], rest);
      assert st.token.value + [w[0]] + w[1..] == st.token.value + w;
    }
  }

  /** `w` may sit inside a `q` quote without closing it or escaping anything. */
  predicate QuotableIn(q: char, w: string)
  {
    forall i :: 0 <= i < |w| ==> w[i] != q && w[i] != '\\'
  }

  /** The state right after the opening quote `q`. */
  lemma OpenQuote(mode: Mode, q: char, rest: string)
    requires q in QuoteChars(mode)
    ensures Feed(mode, Start(mode), [q] + rest)
         == Feed(mode, Scanner(Some([q]), Some(q), None, "\\",
                               if mode == Windows then Some("") else None), rest)
  {
    assert Reachable(mode, Start(mode));
    OpenQuoteAnywhere(mode, Start(mode), q, rest);
    assert "" + "\\" == "\\" && "" + [q] == [q];
  }

  /**
   * The open quote character closes the quote: it is appended, and the
   * escape set becomes the saved one, or empty when none was saved.
   */
  lemma CloseQuote(mode: Mode, st: Scanner, rest: string)
    requires st.quoteChar.Some? && st.escapeChar.None? && st.quoteChar.value !in st.escapeChars
    ensures Feed(mode, st, [st.quoteChar.value] + rest)
         == Feed(mode, Append(st.(escapeChars := OrEmpty(st.oldEscapeChars), oldEscapeChars := None, quoteChar := None),
                              [st.quoteChar.value]), rest)
  {
    var q := st.quoteChar.value;
    FeedCons(mode, st, q, rest);
    var st1 := Step(mode, st, q).0;
    assert [] + Feed(mode, st1, rest).1 == Feed(mode, st1, rest).1;
  }

  /**
   * A closed quoted run is one token that keeps both quote characters and
   * any whitespace between them; afterwards no escape character is active,
   * in either dialect (the escape set becomes `oldEscapeChars || ''`).
   */
  lemma ClosedQuote(mode: Mode, q: char, w: string, rest: string)
    requires q in QuoteChars(mode) && QuotableIn(q, w)
    ensures Feed(mode, Start(mode), [q] + w + [q] + rest)
         == Feed(mode, Scanner(Some([q] + w + [q]), None, None, "", None), rest)
  {
    var st1 := Scanner(Some([q]), Some(q), None, "\\", if mode == Windows then Some("") else None);
    assert [q] + w + [q] + rest == [q] + (w + ([q] + rest));
    OpenQuote(mode, q, w + ([q] + rest));
    FeedLiteral(mode, st1, w, [q] + rest);
    var st2 := Append(st1, w);
    assert q == '\'' || q == '"';
    CloseQuote(mode, st2, rest);
  }

  lemma QuotedToken(mode: Mode, q: char, w: string)
    requires q in QuoteChars(mode) && QuotableIn(q, w)
    ensures Tokens(mode, [q] + w + [q]) == [[q] + w + [q]]
  {
    ClosedQuote(mode, q, w, []);
    assert [q] + w + [q] + [] == [q] + w + [q];
  }

  /** An unterminated quote is not an error: the partial token is yielded, opening quote included. */
  lemma UnterminatedQuote(mode: Mode, q: char, w: string)
    requires q in QuoteChars(mode) && QuotableIn(q, w)
    ensures Tokens(mode, [q] + w) == [[q] + w]
  {
    var st1 := Scanner(Some([q]), Some(q), None, "\\", if mode == Windows then Some("") else None);
    OpenQuote(mode, q, w);
    FeedLiteral(mode, st1, w, []);
    assert w + [] == w;
  }

  /**
   * In posix mode a backslash after a closed quote is an ordinary
   * character: it is kept in the token instead of escaping what follows.
   */
  lemma BackslashLiteralAfterQuote(q: char, w: string, v: string)
    requires q in QuoteChars(Posix) && QuotableIn(q, w)
    requires forall i :: 0 <= i < |v| ==> v[i] !in QuoteChars(Posix) && !IsWhitespace(v[i])
    ensures Tokens(Posix, [q] + w + [q] + v) == [[q] + w + [q] + v]
  {
    var st := Scanner(Some([q] + w + [q]), None, None, "", None);
    ClosedQuote(Posix, q, w, v);
    FeedLiteral(Posix, st, v, []);
    assert v + [] == v;
  }

  // ---------------------------------------------------------------------
  // Escapes
  // ---------------------------------------------------------------------

  /** The state may start an escape with `e` now. */
  predicate EscapeReady(st: Scanner, e: char)
  {
    st.escapeChar.None? && e in st.escapeChars &&
    !(st.quoteChar.Some? && st.quoteChar.value in st.escapeChars)
  }

  /** An escaped newline contributes nothing and does not start a token. */
  lemma EscapedNewline(mode: Mode, st: Scanner, e: char, rest: string)
    requires EscapeReady(st, e)
    ensures Feed(mode, st, [e, '\n'] + rest) == Feed(mode, st, rest)
  {
    var st1 := Step(mode, st, e).0;
    assert [e, '\n'] + rest == [e] + (['\n'] + rest);
    FeedCons(mode, st, e, ['\n'] + rest);
    FeedCons(mode, st1, '\n', rest);
    assert Step(mode, st1, '\n') == (st, []);
    assert [] + ([] + Feed(mode, st, rest).1) == Feed(mode, st, rest).1;
  }

  /** An escaped character other than the open quote is appended without its escape. */
  lemma EscapedChar(mode: Mode, st: Scanner, e: char, c: char, rest: string)
    requires EscapeReady(st, e) && c != '\n'
    requires st.quoteChar.None? || c != st.quoteChar.value
    ensures Feed(mode, st, [e, c] + rest) == Feed(mode, Append(st, [c]), rest)
  {
    var st1 := Step(mode, st, e).0;
    var st2 := Append(st, [c]);
    assert [e, c] + rest == [e] + ([c] + rest);
    FeedCons(mode, st, e, [c] + rest);
    FeedCons(mode, st1, c, rest);
    assert Step(mode, st1, c) == (st2, []);
    assert [] + ([] + Feed(mode, st2, rest).1) == Feed(mode, st2, rest).1;
  }

  /**
   * The open quote character, escaped, is appended together with its
   * escape, and the quote stays open.
   */
  lemma EscapedQuote(mode: Mode, st: Scanner, e: char, rest: string)
    requires EscapeReady(st, e) && st.quoteChar.Some? && st.quoteChar.value in QuoteChars(mode)
    ensures Feed(mode, st, [e, st.quoteChar.value] + rest)
         == Feed(mode, Append(st, [e, st.quoteChar.value]), rest)
  {
    var q := st.quoteChar.value;
    var st1 := Step(mode, st, e).0;
    var st2 := Append(st, [e, q]);
    assert [e, q] + rest == [e] + ([q] + rest);
    FeedCons(mode, st, e, [q] + rest);
    FeedCons(mode, st1, q, rest);
    assert Step(mode, st1, q) == (st2, []);
    assert [] + ([] + Feed(mode, st2, rest).1) == Feed(mode, st2, rest).1;
  }

  /** An escape character at the very end of the input is dropped. */
  lemma TrailingEscape(mode: Mode, s: string, e: char)
    requires EscapeReady(Feed(mode, Start(mode), s).0, e)
    ensures Tokens(mode, s + [e]) == Tokens(mode, s)
  {
    FeedAppend(mode, Start(mode), s, [e]);
    var (st, out) := Feed(mode, Start(mode), s);
    assert Feed(mode, st, [e]) == (st.(escapeChar := Some(e)), []);
    assert out + [] == out;
  }

  // ---------------------------------------------------------------------
  // The escape set
  // ---------------------------------------------------------------------

  /** The shapes the state can take, per dialect. */
  predicate Reachable(mode: Mode, st: Scanner)
  {
    && (st.escapeChars == "" || st.escapeChars == "\\")
    && (st.escapeChar.Some? ==> st.escapeChar.value == '\\')
    && (st.quoteChar.Some? ==> st.quoteChar.value in QuoteChars(mode))
    && (mode == Posix ==> st.oldEscapeChars.None?)
    && (mode == Windows ==>
          if st.quoteChar.Some? then st.escapeChars == "\\" && st.oldEscapeChars == Some("")
          else st.escapeChars == "" && st.oldEscapeChars.None?)
  }

  lemma StepReachable(mode: Mode, st: Scanner, c: char)
    requires Reachable(mode, st)
    ensures Reachable(mode, Step(mode, st, c).0)
  {
    if st.escapeChar.None? && st.quoteChar.None? && c in QuoteChars(mode) && mode == Windows {
      assert st.escapeChars + "\\" == "\\";
    }
  }

  lemma {:induction false} FeedReachable(mode: Mode, st: Scanner, s: string)
    requires Reachable(mode, st)
    ensures Reachable(mode, Feed(mode, st, s).0)
    decreases |s|
  {
    if s != [] {
      StepReachable(mode, st, s[0]);
      FeedReachable(mode, Step(mode, st, s[0]).0, s[1..]);
    }
  }

  /**
   * No open quote is ever itself an escape character, so the test at
   * src/shlex.ts:34 never holds; in windows mode `\` escapes exactly while a
   * quote is open.
   */
  lemma EscapeSetAfter(mode: Mode, s: string)
    ensures var st := Feed(mode, Start(mode), s).0;
      && (st.quoteChar.Some? ==> st.quoteChar.value !in st.escapeChars)
      && (mode == Windows ==> ('\\' in st.escapeChars <==> st.quoteChar.Some?))
  {
    FeedReachable(mode, Start(mode), s);
  }


  /**
   * In posix mode, once the escape set is empty (after the first closed
   * quote) it stays empty and no escape can start, whatever follows.
   */
  lemma {:induction false} PosixEscapeGone(st: Scanner, s: string)
    requires Reachable(Posix, st) && st.escapeChars == "" && st.escapeChar.None?
    ensures Feed(Posix, st, s).0.escapeChars == "" && Feed(Posix, st, s).0.escapeChar.None?
    decreases |s|
  {
    if s != [] {
      StepReachable(Posix, st, s[0]);
      PosixEscapeGone(Step(Posix, st, s[0]).0, s[1..]);
    }
  }

  /**
   * Posix mode: when the first quoted run of the input closes, backslash
   * escaping ends for the rest of the input.
   */
  lemma PosixEscapesEndAtClose(s: string, t: string)
    requires Feed(Posix, Start(Posix), s).0.quoteChar.Some?
    requires Feed(Posix, Start(Posix), s).0.escapeChar.None?
    ensures var q := Feed(Posix, Start(Posix), s).0.quoteChar.value;
      && Feed(Posix, Start(Posix), s + [q] + t).0.escapeChars == ""
      && Feed(Posix, Start(Posix), s + [q] + t).0.escapeChar.None?
  {
    var st := Feed(Posix, Start(Posix), s).0;
    var q := st.quoteChar.value;
    FeedReachable(Posix, Start(Posix), s);
    assert q == '\'' || q == '"';
    assert s + [q] + t == s + ([q] + t);
    FeedAppend(Posix, Start(Posix), s, [q] + t);
    CloseQuote(Posix, st, t);
    var st2 := Append(st.(escapeChars := OrEmpty(st.oldEscapeChars), oldEscapeChars := None, quoteChar := None), [q]);
    assert Reachable(Posix, st2);
    PosixEscapeGone(st2, t);
  }

  /**
   * With the backslash not an escape character (posix after a closed quote,
   * windows outside quotes) a backslash is appended like any letter, inside
   * or outside a quote.
   */
  lemma BackslashLiteral(mode: Mode, st: Scanner, rest: string)
    requires Reachable(mode, st) && st.escapeChar.None? && '\\' !in st.escapeChars
    ensures Feed(mode, st, "\\" + rest) == Feed(mode, Append(st, "\\"), rest)
  {
    FeedCons(mode, st, '\\', rest);
    assert [] + Feed(mode, Append(st, "\\"), rest).1 == Feed(mode, Append(st, "\\"), rest).1;
  }

  /**
   * A quote character opens a quote wherever it appears outside quotes and
   * escapes, even in the middle of a token; windows mode saves the escape
   * set and adds the backslash to it.
   */
  lemma OpenQuoteAnywhere(mode: Mode, st: Scanner, q: char, rest: string)
    requires Reachable(mode, st) && st.quoteChar.None? && st.escapeChar.None? && q in QuoteChars(mode)
    ensures Feed(mode, st, [q] + rest)
         == Feed(mode, Append(st.(quoteChar := Some(q),
                                  oldEscapeChars := if mode == Windows then Some(st.escapeChars) else st.oldEscapeChars,
                                  escapeChars := if mode == Windows then st.escapeChars + "\\" else st.escapeChars),
                              [q]), rest)
  {
    assert q == '\'' || q == '"';
    FeedCons(mode, st, q, rest);
    var st1 := Step(mode, st, q).0;
    assert [] + Feed(mode, st1, rest).1 == Feed(mode, st1, rest).1;
  }

  /** A quote in the middle of a word continues the word: `x"a b` is one token. */
  lemma QuoteMidToken(mode: Mode, u: string, q: char, w: string)
    requires u != [] && forall i :: 0 <= i < |u| ==> Literal(mode, Start(mode), u[i])
    requires q in QuoteChars(mode) && QuotableIn(q, w)
    ensures Tokens(mode, u + [q] + w) == [u + [q] + w]
  {
    var st0 := Scanner(Some(u), None, None, DefaultEscapeChars(mode), None);
    var st1 := Scanner(Some(u + [q]), Some(q), None, "\\", if mode == Windows then Some("") else None);
    assert Append(Start(mode), u) == st0 by {
      assert "" + u == u;
    }
    assert Reachable(mode, st0);
    calc {
      Feed(mode, Start(mode), u + [q] + w);
      { assert u + [q] + w == u + ([q] + w);
        FeedWord(mode, Start(mode), u, [q] + w); }
      Feed(mode, st0, [q] + w);
      { OpenQuoteAnywhere(mode, st0, q, w);
        assert DefaultEscapeChars(mode) + "\\" == "\\" || mode == Posix; }
      Feed(mode, st1, w);
      { FeedLiteral(mode, st1, w, []);
        assert w + [] == w; }
      Feed(mode, Append(st1, w), []);
    }
  }

  /** While a quote is open, the pending token holds that quote character. */
  predicate QuoteInToken(st: Scanner)
  {
    st.quoteChar.Some? ==> st.token.Some? && st.quoteChar.value in st.token.value
  }

  lemma StepQuoteInToken(mode: Mode, st: Scanner, c: char)
    requires QuoteInToken(st)
    ensures QuoteInToken(Step(mode, st, c).0)
  {
    var t := OrEmpty(st.token);
    if st.quoteChar.Some? {
      var q := st.quoteChar.value;
      forall x: string ensures q in t + x {
        assert (t + x)[..|t|] == t;
      }
    } else if st.escapeChar.None? && c in QuoteChars(mode) && c !in st.escapeChars {
      assert (t + [c])[|t|] == c;
    }
  }

  lemma {:induction false} FeedQuoteInToken(mode: Mode, st: Scanner, s: string)
    requires QuoteInToken(st)
    ensures QuoteInToken(Feed(mode, st, s).0)
    decreases |s|
  {
    if s != [] {
      StepQuoteInToken(mode, st, s[0]);
      FeedQuoteInToken(mode, Step(mode, st, s[0]).0, s[1..]);
    }
  }

  /**
   * Any input that ends inside a quote, wherever the quote opened and
   * whatever came before, ends with a token holding the still-open quote
   * character: the partial token is yielded, not dropped.
   */
  lemma UnterminatedQuoteAnywhere(mode: Mode, s: string)
    requires Feed(mode, Start(mode), s).0.quoteChar.Some?
    ensures var st, ts := Feed(mode, Start(mode), s).0, Tokens(mode, s);
      && st.token.Some?
      && ts != [] && ts[|ts| - 1] == st.token.value
      && st.quoteChar.value in ts[|ts| - 1]
  {
    FeedQuoteInToken(mode, Start(mode), s);
  }

  // ---------------------------------------------------------------------
  // Quoting
  // ---------------------------------------------------------------------

  /** Undoes `EscapeDoubleQuotes`: `\"` becomes `"`. */
  function UnescapeDoubleQuotes(r: string): string
    decreases |r|
  {
    if r == [] then []
    else if |r| >= 2 && r[0] == '\\' && r[1] == '"' then "\"" + UnescapeDoubleQuotes(r[2..])
    else [r[0]] + UnescapeDoubleQuotes(r[1..])
  }

  lemma {:induction false} UnescapeEscape(s: string)
    ensures UnescapeDoubleQuotes(EscapeDoubleQuotes(s)) == s
    decreases |s|
  {
    if s != [] {
      var rest := EscapeDoubleQuotes(s[1..]);
      UnescapeEscape(s[1..]);
      if s[0] == '"' {
        var r := "\\\"" + rest;
        assert r[2..] == rest;
      } else {
        var r := [s[0]] + rest;
        assert r[1..] == rest;
        if |r| >= 2 && r[0] == '\\' {
          assert QuoteEscapedAt(rest, 0);
        }
      }
    }
  }

  /** Only double quotes are escaped: backslashes and everything else pass through. */
  lemma {:induction false} EscapeWithoutQuotes(s: string)
    requires forall i :: 0 <= i < |s| ==> s[i] != '"'
    ensures EscapeDoubleQuotes(s) == s
    decreases |s|
  {
    if s != [] {
      EscapeWithoutQuotes(s[1..]);
      assert [s[0]] + s[1..] == s;
    }
  }

  /** Reads a quoted word back: strips the wrapping quotes and unescapes. */
  function Unquote(r: string): string
  {
    if |r| >= 2 && r[0] == '"' && r[|r| - 1] == '"' then UnescapeDoubleQuotes(r[1..|r| - 1])
    else r
  }

  /** `quote` loses nothing: every word can be read back from its quoted form. */
  lemma QuoteInverse(s: string)
    ensures Unquote(Quote(s)) == s
  {
    if s == [] {
    } else if !IsSafeWord(s) {
      var r := "\"" + EscapeDoubleQuotes(s) + "\"";
      assert r[1..|r| - 1] == EscapeDoubleQuotes(s);
      UnescapeEscape(s);
    } else {
      assert !IsSafeChar('"');
      assert s[0] != '"';
    }
  }

  lemma EscapeDoubleQuotesCons(x: string)
    requires x != []
    ensures EscapeDoubleQuotes(x) == EscapedHead(x[0]) + EscapeDoubleQuotes(x[1..])
  {
  }

  /** Inside a `"` quote with `\` active, the escaped form of one character is appended verbatim. */
  lemma FeedEscapedHead(mode: Mode, st: Scanner, c: char, rest: string)
    requires st.quoteChar == Some('"') && st.escapeChar.None? && st.escapeChars == "\\" && st.token.Some?
    requires c != '\\'
    ensures Feed(mode, st, EscapedHead(c) + rest) == Feed(mode, Append(st, EscapedHead(c)), rest)
  {
    if c == '"' {
      assert EscapedHead(c) + rest == ['\\', '"'] + rest;
      EscapedQuote(mode, st, '\\', rest);
    } else {
      assert Literal(mode, st, c);
      FeedLiteral(mode, st, [c], rest);
    }
  }

  lemma {:induction false} FeedEscapedQuotes(mode: Mode, st: Scanner, x: string, rest: string)
    requires st.quoteChar == Some('"') && st.escapeChar.None? && st.escapeChars == "\\" && st.token.Some?
    requires forall i :: 0 <= i < |x| ==> x[i] != '\\'
    ensures Feed(mode, st, EscapeDoubleQuotes(x) + rest)
         == Feed(mode, Append(st, EscapeDoubleQuotes(x)), rest)
    decreases |x|
  {
    var t := st.token.value;
    if x == [] {
      assert EscapeDoubleQuotes(x) + rest == rest;
      assert t + [] == t;
    } else {
      var head := EscapedHead(x[0]);
      var tail := EscapeDoubleQuotes(x[1..]);
      calc {
        Feed(mode, st, EscapeDoubleQuotes(x) + rest);
        { EscapeDoubleQuotesCons(x);
          assert EscapeDoubleQuotes(x) + rest == head + (tail + rest); }
        Feed(mode, st, head + (tail + rest));
        { FeedEscapedHead(mode, st, x[0], tail + rest); }
        Feed(mode, Append(st, head), tail + rest);
        { FeedEscapedQuotes(mode, Append(st, head), x[1..], rest); }
        Feed(mode, Append(Append(st, head), tail), rest);
        { EscapeDoubleQuotesCons(x);
          assert t + head + tail == t + EscapeDoubleQuotes(x); }
        Feed(mode, Append(st, EscapeDoubleQuotes(x)), rest);
      }
    }
  }

  /** A double-quoted run of escaped text is read as one token, kept verbatim. */
  lemma SplitEscapedRun(mode: Mode, w: string)
    requires forall i :: 0 <= i < |w| ==> w[i] != '\\'
    ensures Tokens(mode, "\"" + EscapeDoubleQuotes(w) + "\"") == ["\"" + EscapeDoubleQuotes(w) + "\""]
  {
    var e := EscapeDoubleQuotes(w);
    var st1 := Scanner(Some("\""), Some('"'), None, "\\", if mode == Windows then Some("") else None);
    var st2 := Append(st1, e);
    var st3 := Scanner(Some("\"" + e + "\""), None, None, "", None);
    calc {
      Feed(mode, Start(mode), "\"" + e + "\"");
      { assert "\"" + e + "\"" == ['"'] + (e + ['"']);
        OpenQuote(mode, '"', e + ['"']); }
      Feed(mode, st1, e + ['"']);
      { FeedEscapedQuotes(mode, st1, w, ['"']); }
      Feed(mode, st2, ['"']);
      { assert ['"'] == ['"'] + [];
        CloseQuote(mode, st2, []); }
      Feed(mode, st3, []);
    }
  }

  /**
   * No character the tokenizer treats specially in either dialect (separator,
   * quote, backslash) is safe, so `quote` wraps every word holding one.
   */
  lemma SpecialsUnsafe(c: char)
    requires IsWhitespace(c) || c in QuoteChars(Posix) || c in QuoteChars(Windows) || c == '\\'
    ensures !IsSafeChar(c)
  {
  }

  /** For a non-empty word of safe characters the round trip is exact. */
  lemma SplitQuoteSafe(mode: Mode, w: string)
    requires w != [] && IsSafeWord(w)
    ensures Tokens(mode, Quote(w)) == [w]
  {
    assert Plain(mode, w) by {
      forall i | 0 <= i < |w|
        ensures w[i] !in QuoteChars(mode) && w[i] !in DefaultEscapeChars(mode)
      {
        assert IsSafeChar(w[i]);
        if w[i] in QuoteChars(mode) || w[i] in DefaultEscapeChars(mode) {
          SpecialsUnsafe(w[i]);
        }
      }
    }
    TokensOfPlain(mode, w);
    WordsLead(w, []);
    assert w + [] == w;
  }

  /**
   * Splitting the quoted form of a word without backslashes gives exactly
   * one token, in either dialect: the quoted form itself, quotes and
   * escapes included.
   */
  lemma SplitQuote(mode: Mode, w: string)
    requires forall i :: 0 <= i < |w| ==> w[i] != '\\'
    ensures Tokens(mode, Quote(w)) == [Quote(w)]
  {
    if w != [] && IsSafeWord(w) {
      SplitQuoteSafe(mode, w);
    } else {
      assert Quote(w) == "\"" + EscapeDoubleQuotes(w) + "\"" by {
        if w == [] {
          assert EscapeDoubleQuotes(w) == [];
        }
      }
      SplitEscapedRun(mode, w);
    }
  }

  /**
   * The round trip is not exact in general: the quotes stay in the token,
   * so `"a b"` comes back instead of `a b`, and the empty word comes back
   * as `""`.
   */
  lemma SplitQuoteKeepsQuotes(mode: Mode)
    ensures Tokens(mode, Quote("a b")) == ["\"a b\""]
    ensures Tokens(mode, Quote("")) == ["\"\""]
  {
    assert !IsSafeWord("a b") by {
      assert !IsSafeChar("a b"[1]);
    }
    EscapeWithoutQuotes("a b");
    assert Quote("a b") == "\"a b\"";
    SplitQuote(mode, "a b");
    SplitQuote(mode, "");
  }

  // ---------------------------------------------------------------------
  // Re-splitting joined words
  // ---------------------------------------------------------------------

  /** The words joined with single spaces. */
  function JoinWords(ws: seq<string>): string
  {
    if ws == [] then ""
    else if |ws| == 1 then ws[0]
    else ws[0] + " " + JoinWords(ws[1..])
  }

  lemma {:induction false} WordsOfJoin(ws: seq<string>)
    requires forall i :: 0 <= i < |ws| ==> ws[i] != [] && NoWhitespace(ws[i])
    ensures Words(JoinWords(ws)) == ws
    decreases |ws|
  {
    if |ws| == 1 {
      WordsLead(ws[0], []);
      assert ws[0] + [] == ws[0];
    } else if |ws| > 1 {
      var rest := JoinWords(ws[1..]);
      assert JoinWords(ws) == ws[0] + (" " + rest);
      WordsLead(ws[0], " " + rest);
      assert (" " + rest)[1..] == rest;
      WordsOfJoin(ws[1..]);
      assert [ws[0]] + ws[1..] == ws;
    }
  }

  lemma {:induction false} PlainJoin(mode: Mode, ws: seq<string>)
    requires forall i :: 0 <= i < |ws| ==> Plain(mode, ws[i])
    ensures Plain(mode, JoinWords(ws))
    decreases |ws|
  {
    if |ws| > 1 {
      PlainJoin(mode, ws[1..]);
      var rest := JoinWords(ws[1..]);
      var s := ws[0] + " " + rest;
      forall i | 0 <= i < |s|
        ensures s[i] !in QuoteChars(mode) && s[i] !in DefaultEscapeChars(mode)
      {
        if i < |ws[0]| {
          assert s[i] == ws[0][i];
        } else if i > |ws[0]| {
          assert s[i] == rest[i - |ws[0]| - 1];
        }
      }
    }
  }

  lemma {:induction false} PlainWords(mode: Mode, s: string)
    requires Plain(mode, s)
    ensures forall i :: 0 <= i < |Words(s)| ==> Plain(mode, Words(s)[i])
    decreases |s|
  {
    if s != [] {
      if IsWhitespace(s[0]) {
        PlainWords(mode, s[1..]);
      } else {
        var n := WordLength(s);
        PlainWords(mode, s[n..]);
        assert Plain(mode, s[..n]) by {
          forall i | 0 <= i < n ensures s[..n][i] == s[i] {
          }
        }
      }
    }
  }

  /**
   * For input without quote or escape characters, joining the tokens with
   * single spaces and splitting again gives the same tokens.
   */
  lemma ResplitJoined(mode: Mode, s: string)
    requires Plain(mode, s)
    ensures Tokens(mode, JoinWords(Tokens(mode, s))) == Tokens(mode, s)
  {
    TokensOfPlain(mode, s);
    var ws := Words(s);
    PlainWords(mode, s);
    PlainJoin(mode, ws);
    TokensOfPlain(mode, JoinWords(ws));
    forall i | 0 <= i < |ws| ensures ws[i] != [] && NoWhitespace(ws[i]) {
      assert ws[i] in ws;
    }
    WordsOfJoin(ws);
  }

  // ---------------------------------------------------------------------
  // Examples
  // ---------------------------------------------------------------------

  /** Runs of whitespace collapse; no empty token appears between them. */
  lemma ExampleWhitespace()
    ensures Tokens(Posix, "a   b") == ["a", "b"]
  {
    assert Plain(Posix, "a   b");
    TokensOfPlain(Posix, "a   b");
    assert "a   b" == "a" + "   b";
    WordsLead("a", "   b");
    assert Words("   b") == Words("  b") == Words(" b") == Words("b") by {
      assert "   b"[1..] == "  b" && "  b"[1..] == " b" && " b"[1..] == "b";
    }
    WordsLead("b", []);
    assert "b" + [] == "b";
  }

  /** In windows mode a backslash outside quotes is an ordinary character. */
  lemma ExampleWindowsBackslash()
    ensures Tokens(Windows, "a\\b") == ["a\\b"]
  {
    TokensOfPlain(Windows, "a\\b");
    WordsLead("a\\b", []);
    assert "a\\b" + [] == "a\\b";
  }

  /** An empty quoted pair is a token of its two quote characters, not an empty token. */
  lemma ExampleEmptyQuotes()
    ensures Tokens(Posix, "''") == ["''"]
  {
    QuotedToken(Posix, '\'', "");
    assert ['\''] + "" + ['\''] == "''";
  }

  /**
   * Inside a windows quoted run the backslash escapes the quote, and both
   * are kept.
   */
  lemma ExampleWindowsEscapedQuote()
    ensures Tokens(Windows, "\"a\\\"b\"") == ["\"a\\\"b\""]
  {
    assert !IsSafeWord("a\"b") by {
      assert !IsSafeChar("a\"b"[1]);
    }
    assert EscapeDoubleQuotes("a\"b") == "a\\\"b" by {
      EscapeDoubleQuotesCons("a\"b");
      EscapeDoubleQuotesCons("\"b");
      EscapeDoubleQuotesCons("b");
    }
    assert Quote("a\"b") == "\"a\\\"b\"";
    SplitQuote(Windows, "a\"b");
  }

  /** A run of ordinary characters outside quotes extends the token, starting one if needed. */
  lemma FeedWord(mode: Mode, st: Scanner, u: string, rest: string)
    requires st.quoteChar.None? && st.escapeChar.None?
    requires forall i :: 0 <= i < |u| ==> Literal(mode, st, u[i])
    ensures Feed(mode, st, u + rest) == Feed(mode, if u == [] then st else Append(st, u), rest)
  {
    if u != [] {
      var st1 := Append(st, [u[0]]);
      assert u + rest == [u[0]] + (u[1..] + rest);
      FeedCons(mode, st, u[0], u[1..] + rest);
      StepPlain(mode, st, u[0]);
      assert [] + Feed(mode, st1, u[1..] + rest).1 == Feed(mode, st1, u[1..] + rest).1;
      FeedLiteral(mode, st1, u[1..], rest);
      assert OrEmpty(st.token) + [u[0]] + u[1..] == OrEmpty(st.token) + u;
    } else {
      assert u + rest == rest;
    }
  }

  /**
   * Before any quote, a posix `\` escapes the space after it: the space
   * joins the two runs into one token and the backslash is dropped.
   */
  lemma BackslashSpaceBeforeQuote(u: string, v: string)
    requires forall i :: 0 <= i < |u| ==> Literal(Posix, Start(Posix), u[i])
    requires forall i :: 0 <= i < |v| ==> Literal(Posix, Start(Posix), v[i])
    ensures Tokens(Posix, u + "\\ " + v) == [u + " " + v]
  {
    var st0 := if u == [] then Start(Posix) else Append(Start(Posix), u);
    var st1 := Append(st0, " ");
    assert st0.escapeChars == st1.escapeChars == "\\";
    assert st0.quoteChar.None? && st0.escapeChar.None? && st1.quoteChar.None? && st1.escapeChar.None?;
    assert OrEmpty(st1.token) == u + " ";
    assert EscapeReady(st0, '\\');
    assert forall i :: 0 <= i < |v| ==> Literal(Posix, st1, v[i]);
    calc {
      Feed(Posix, Start(Posix), u + "\\ " + v);
      { assert u + "\\ " + v == u + (['\\', ' '] + v);
        FeedWord(Posix, Start(Posix), u, ['\\', ' '] + v); }
      Feed(Posix, st0, ['\\', ' '] + v);
      { EscapedChar(Posix, st0, '\\', ' ', v); }
      Feed(Posix, st1, v);
      { FeedLiteral(Posix, st1, v, []);
        assert v + [] == v; }
      Feed(Posix, Append(st1, v), []);
    }
    assert u + " " + v == OrEmpty(st1.token) + v;
  }

  /**
   * After the first closed quote the posix escape set is empty: a `\`
   * before a space is kept and the space separates tokens.
   */
  lemma BackslashSpaceAfterQuote(q: char, w: string, u: string, v: string)
    requires q in QuoteChars(Posix) && QuotableIn(q, w)
    requires forall i :: 0 <= i < |u| ==> u[i] !in QuoteChars(Posix) && !IsWhitespace(u[i])
    requires v != [] && forall i :: 0 <= i < |v| ==> v[i] !in QuoteChars(Posix) && !IsWhitespace(v[i])
    ensures Tokens(Posix, [q] + w + [q] + u + "\\ " + v) == [[q] + w + [q] + u + "\\", v]
  {
    var first := [q] + w + [q] + u + "\\";
    var closed := Scanner(Some([q] + w + [q]), None, None, "", None);
    var st1 := Append(closed, u + "\\");
    var st2 := st1.(token := None);
    var st3 := Append(st2, v);
    assert OrEmpty(st1.token) == first;
    calc {
      Feed(Posix, Start(Posix), [q] + w + [q] + u + "\\ " + v);
      { assert [q] + w + [q] + u + "\\ " + v == [q] + w + [q] + (u + "\\ " + v);
        ClosedQuote(Posix, q, w, u + "\\ " + v); }
      Feed(Posix, closed, u + "\\ " + v);
      { assert u + "\\ " + v == (u + "\\") + ([' '] + v);
        FeedWord(Posix, closed, u + "\\", [' '] + v); }
      Feed(Posix, st1, [' '] + v);
      { FeedCons(Posix, st1, ' ', v);
        StepPlain(Posix, st1, ' '); }
      (Feed(Posix, st2, v).0, [first] + Feed(Posix, st2, v).1);
      { FeedWord(Posix, st2, v, []);
        assert v + [] == v; }
      (st3, [first] + []);
    }
    assert OrEmpty(st3.token) == v;
  }

}
