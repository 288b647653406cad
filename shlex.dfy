/*
 * Shell-style word splitting and quoting (src/shlex.ts).
 *
 * `Split` is the tokenizer: an imperative loop over the characters of the
 * input that updates the same five variables as `split` in src/shlex.ts
 * (token, quoteChar, escapeChar, escapeChars, oldEscapeChars) and collects
 * the tokens that generator would yield. It is proved against `Tokens`, which runs the
 * same state machine as a fold of the single-character transition `Step`.
 * `Quote` is the inverse direction: it wraps a word so that `Split` reads
 * a word without backslashes back as one token (see `SplitQuote`).
 */
module Shlex {

  datatype Option<T> = None | Some(value: T)

  /** The two dialects; the caller chooses one (no platform detection here). */
  datatype Mode = Posix | Windows

  /** `s || ''`: the text of an optional string, empty when there is none. */
  function OrEmpty(s: Option<string>): string
  {
    match s
    case Some(t) => t
    case None => ""
  }

  /** Characters that open and close a quoted run. */
  function QuoteChars(mode: Mode): string
  {
    if mode == Posix then "'\"" else "\""
  }

  /** Escape characters active at the start of the input. */
  function DefaultEscapeChars(mode: Mode): string
  {
    if mode == Posix then "\\" else ""
  }

  /** The separator class `[\t \n\r\f]`. */
  predicate IsWhitespace(c: char)
  {
    c == '\t' || c == ' ' || c == '\n' || c == '\r' || c == '\U{000C}'
  }

  /**
   * The tokenizer's state between two characters. `token == None` means no
   * token has started since the last one was yielded, which is not the same
   * as `Some("")`.
   */
  datatype Scanner = Scanner(
    token: Option<string>,
    quoteChar: Option<char>,
    escapeChar: Option<char>,
    escapeChars: string,
    oldEscapeChars: Option<string>)

  function Start(mode: Mode): Scanner
  {
    Scanner(None, None, None, DefaultEscapeChars(mode), None)
  }

  /** `token = (token || '') + s`: extends the token, starting one if needed. */
  function Append(st: Scanner, s: string): Scanner
  {
    st.(token := Some(OrEmpty(st.token) + s))
  }

  /** The token in progress, as the list of what is yielded when it ends. */
  function Pending(st: Scanner): seq<string>
  {
    if st.token.Some? then [st.token.value] else []
  }

  /** One iteration of the loop: the next state and the tokens yielded. */
  function Step(mode: Mode, st: Scanner, c: char): (Scanner, seq<string>)
  {
    if st.escapeChar.Some? then
      // resolve the pending escape
      var st' :=
        if c == '\n' then st
        else if st.quoteChar.None? || c != st.quoteChar.value || c in st.escapeChars then Append(st, [c])
        else Append(st, [st.escapeChar.value, c]);
      (st'.(escapeChar := None), [])
    else if c in st.escapeChars && !(st.quoteChar.Some? && st.quoteChar.value in st.escapeChars) then
      (st.(escapeChar := Some(c)), [])
    else if st.quoteChar.Some? then
      var st' :=
        if c == st.quoteChar.value
        then st.(escapeChars := OrEmpty(st.oldEscapeChars), oldEscapeChars := None, quoteChar := None)
        else st;
      (Append(st', [c]), [])
    else if c in QuoteChars(mode) then
      var st' :=
        if mode == Windows
        then st.(oldEscapeChars := Some(st.escapeChars), escapeChars := st.escapeChars + "\\")
        else st;
      (Append(st'.(quoteChar := Some(c)), [c]), [])
    else if IsWhitespace(c) then
      (st.(token := None), Pending(st))
    else
      (Append(st, [c]), [])
  }

  /** Runs the machine over `s`: the final state and every token yielded on the way. */
  function Feed(mode: Mode, st: Scanner, s: string): (Scanner, seq<string>)
    decreases |s|
  {
    if s == [] then (st, [])
    else
      var (st1, out1) := Step(mode, st, s[0]);
      var (st2, out2) := Feed(mode, st1, s[1..]);
      (st2, out1 + out2)
  }

  /** All tokens of `s`: those yielded in the loop, then the one left at the end. */
  function Tokens(mode: Mode, s: string): seq<string>
  {
    var (st, out) := Feed(mode, Start(mode), s);
    out + Pending(st)
  }

  /** Feeding `s + t` is feeding `s`, then feeding `t` from where `s` left off. */
  lemma {:induction false} FeedAppend(mode: Mode, st: Scanner, s: string, t: string)
    ensures Feed(mode, st, s + t)
         == (Feed(mode, Feed(mode, st, s).0, t).0,
             Feed(mode, st, s).1 + Feed(mode, Feed(mode, st, s).0, t).1)
    decreases |s|
  {
    if s == [] {
      assert s + t == t;
      assert Feed(mode, st, s) == (st, []);
      assert [] + Feed(mode, st, t).1 == Feed(mode, st, t).1;
    } else {
      var (st1, out1) := Step(mode, st, s[0]);
      assert (s + t)[0] == s[0];
      assert (s + t)[1..] == s[1..] + t;
      FeedAppend(mode, st1, s[1..], t);
      var (mid, outS) := Feed(mode, st1, s[1..]);
      var (fin, outT) := Feed(mode, mid, t);
      assert Feed(mode, st, s + t) == (fin, out1 + (outS + outT));
      assert out1 + (outS + outT) == (out1 + outS) + outT;
    }
  }

  /** Feeding one more character is one more step after the prefix. */
  lemma FeedSnoc(mode: Mode, s: string, c: char, st: Scanner, out: seq<string>)
    requires Feed(mode, Start(mode), s) == (st, out)
    ensures Feed(mode, Start(mode), s + [c]) == (Step(mode, st, c).0, out + Step(mode, st, c).1)
  {
    FeedAppend(mode, Start(mode), s, [c]);
    assert Feed(mode, st, [c]) == (Step(mode, st, c).0, Step(mode, st, c).1 + []);
    assert Step(mode, st, c).1 + [] == Step(mode, st, c).1;
  }

  /** The generator `split`, collecting what it yields, in order. */
  method Split(str: string, mode: Mode) returns (tokens: seq<string>)
    ensures tokens == Tokens(mode, str)
  {
    var quoteChars := QuoteChars(mode);
    var escapeChars := "";
    if mode == Posix {
      escapeChars := escapeChars + "\\";
    }
    var oldEscapeChars: Option<string> := None;
    var quoteChar: Option<char> := None;
    var escapeChar: Option<char> := None;
    var token: Option<string> := None;
    tokens := [];
    assert str[..0] == [];
    assert escapeChars == DefaultEscapeChars(mode);
    for i := 0 to |str|
      invariant Feed(mode, Start(mode), str[..i])
             == (Scanner(token, quoteChar, escapeChar, escapeChars, oldEscapeChars), tokens)
    {
      var c := str[i];
      ghost var before := Scanner(token, quoteChar, escapeChar, escapeChars, oldEscapeChars);
      assert str[..i + 1] == str[..i] + [c];
      FeedSnoc(mode, str[..i], c, before, tokens);
      ghost var after := Step(mode, before, c);
      ghost var yielded := tokens;
      assert yielded + [] == yielded;
      assert Feed(mode, Start(mode), str[..i + 1]) == (after.0, yielded + after.1);

      if escapeChar.Some? {
        if c == '\n' {
          // an escaped newline contributes nothing
        } else if quoteChar.None? || c != quoteChar.value || c in escapeChars {
          token := Some(OrEmpty(token) + [c]);
        } else {
          token := Some(OrEmpty(token) + [escapeChar.value, c]);
        }
        escapeChar := None;
        continue;
      }

      if c in escapeChars && !(quoteChar.Some? && quoteChar.value in escapeChars) {
        escapeChar := Some(c);
        continue;
      }

      if quoteChar.Some? {
        if c == quoteChar.value {
          escapeChars := OrEmpty(oldEscapeChars);
          oldEscapeChars := None;
          quoteChar := None;
        }
        token := Some(OrEmpty(token) + [c]);
        continue;
      }

      if c in quoteChars {
        quoteChar := Some(c);
        if mode == Windows {
          oldEscapeChars := Some(escapeChars);
          escapeChars := escapeChars + "\\";
        }
        token := Some(OrEmpty(token) + [c]);
        continue;
      }

      if IsWhitespace(c) {
        if token.Some? {
          tokens := tokens + [token.value];
        }
        token := None;
        continue;
      }

      token := Some(OrEmpty(token) + [c]);
    }
    assert str[..|str|] == str;
    if token.Some? {
      tokens := tokens + [token.value];
    }
  }

  /** The character class `[A-Za-z0-9_@%+=:,./|-]` that needs no quoting. */
  predicate IsSafeChar(c: char)
  {
    ('A' <= c <= 'Z') || ('a' <= c <= 'z') || ('0' <= c <= '9') || c == '_' ||
    c == '@' || c == '%' || c == '-' || c == '+' || c == '=' || c == ':' ||
    c == ',' || c == '.' || c == '/' || c == '|'
  }

  predicate IsSafeWord(s: string)
  {
    forall i :: 0 <= i < |s| ==> IsSafeChar(s[i])
  }

  /** Every `"` at index `i` of `r` has a backslash just before it. */
  predicate QuoteEscapedAt(r: string, i: nat)
    requires i < |r|
  {
    r[i] == '"' ==> 0 < i && r[i - 1] == '\\'
  }

  /** What the replacement makes of one character: `"` gains a backslash. */
  function EscapedHead(c: char): string
  {
    if c == '"' then "\\\"" else [c]
  }

  /** `s.replace(/"/g, '\\"')`: a backslash before every double quote. */
  function EscapeDoubleQuotes(s: string): (r: string)
    ensures |r| >= |s|
    ensures forall i :: 0 <= i < |r| ==> QuoteEscapedAt(r, i)
  {
    if s == [] then []
    else
      var rest := EscapeDoubleQuotes(s[1..]);
      var r := EscapedHead(s[0]) + rest;
      assert forall i :: 0 <= i < |rest| ==> QuoteEscapedAt(rest, i);
      assert forall i :: |r| - |rest| <= i < |r| ==> r[i] == rest[i - (|r| - |rest|)];
      assert forall i :: |r| - |rest| <= i < |r| ==> QuoteEscapedAt(r, i) by {
        forall i | |r| - |rest| <= i < |r| ensures QuoteEscapedAt(r, i) {
          assert QuoteEscapedAt(rest, i - (|r| - |rest|));
        }
      }
      r
  }

  /**
   * `quote`: the empty word becomes `""`, a non-empty word of safe
   * characters is returned as it is, and any other word is wrapped in double
   * quotes with its own double quotes escaped. `quote` in src/shlex.ts never
   * reads its dialect option, so it is not a parameter here.
   */
  function Quote(s: string): (r: string)
    ensures r != []
    ensures r == s <==> s != [] && IsSafeWord(s)
    ensures r != s ==> |r| >= 2 && r[0] == '"' && r[|r| - 1] == '"'
  {
    if s == [] then "\"\""
    else if !IsSafeWord(s) then "\"" + EscapeDoubleQuotes(s) + "\""
    else s
  }
}
