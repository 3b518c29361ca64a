/** The text encoding of values: quoting, and encode and decode at any depth of quoting. */
module Codec {
  import opened Basics
  import opened Decimal
  import opened Values
  import M = MarkupTypes
  import opened CString

  // Quoting

  function Escape(s: string): string {
    if s == "" then ""
    else Escaped(s[0]) + Escape(s[1..])
  }

  function Quote(s: string): string { "\"" + Escape(s) + "\"" }

  lemma {:induction false} EscapeConcat(a: string, b: string)
    ensures Escape(a + b) == Escape(a) + Escape(b)
  {
    if a == "" {
      assert a + b == b;
    } else {
      assert (a + b)[1..] == a[1..] + b;
      EscapeConcat(a[1..], b);
    }
  }

  /** The form of a quoted text: between quotation marks, with a backslash before each quotation mark and
      each backslash, and every other character as it is. */
  lemma QuoteForm(before: string, c: char, after: string)
    ensures Quote("") == "\"\""
    ensures Quote(before + [c] + after) ==
      "\"" + Escape(before) + (if c == '"' then "\\\"" else if c == '\\' then "\\\\" else [c]) + Escape(after) + "\""
  {
    EscapeConcat(before + [c], after);
    EscapeConcat(before, [c]);
    EscapeOne(c);
    hide Escape, Escaped;
    InQuotes(Escape(before), Escape([c]), Escape(after));
  }

  lemma EscapeOne(c: char)
    ensures Escape([c]) == if c == '"' then "\\\"" else if c == '\\' then "\\\\" else [c]
    ensures Escape("") == ""
  {
    assert [c][1..] == "" && Escape([c]) == Escaped(c) + "";
  }

  lemma InQuotes(a: string, b: string, c: string)
    ensures "\"" + ((a + b) + c) + "\"" == "\"" + a + b + c + "\""
  {
  }

  /** What unquoting leaves: the text, where it stopped (all from there on is the tail), and whether
      both quotation marks were found. */
  datatype Unquoted = Unquoted(text: string, tail: string, ok: bool)

  /** The loop of gconf_unquote_string_inplace. */
  function UnquoteRest(s: string): (u: Unquoted)
    ensures |u.text| + |u.tail| <= |s|
    ensures u.ok ==> |u.text| + |u.tail| < |s|
    decreases |s|
  {
    if s == "" then Unquoted("", "", false)
    else if s[0] == '"' then Unquoted("", s[1..], true)
    else if s[0] == '\\' && |s| > 1 && (s[1] == '"' || s[1] == '\\') then
      var u := UnquoteRest(s[2..]);
      u.(text := [s[1]] + u.text)
    else
      var u := UnquoteRest(s[1..]);
      u.(text := [s[0]] + u.text)
  }

  /** gconf_unquote_string; a text that does not begin with a quotation mark is left as it is. */
  function Unquote(s: string): (u: Unquoted)
    ensures |u.text| <= |s| && |u.tail| <= |s|
    ensures u.ok ==> |u.tail| < |s|
  {
    if s == "" || s[0] != '"' then Unquoted(s, s, false) else UnquoteRest(s[1..])
  }

  lemma StepEscaped(c: char, rest: string)
    requires c == '"' || c == '\\'
    ensures UnquoteRest(['\\', c] + rest) == UnquoteRest(rest).(text := [c] + UnquoteRest(rest).text)
  {
    assert (['\\', c] + rest)[2..] == rest;
  }

  lemma StepPlain(c: char, rest: string)
    requires c != '"' && c != '\\'
    ensures UnquoteRest([c] + rest) == UnquoteRest(rest).(text := [c] + UnquoteRest(rest).text)
  {
    assert ([c] + rest)[1..] == rest;
  }

  lemma StepEnd(tail: string)
    ensures UnquoteRest("\"" + tail) == Unquoted("", tail, true)
  {
    assert ("\"" + tail)[1..] == tail;
  }

  lemma Associative(a: string, b: string, c: string)
    ensures (a + b) + c == a + (b + c)
  {
  }

  lemma StepOne(c: char, rest: string)
    ensures UnquoteRest(Escaped(c) + rest) == UnquoteRest(rest).(text := [c] + UnquoteRest(rest).text)
  {
    if c == '"' || c == '\\' { StepEscaped(c, rest); } else { StepPlain(c, rest); }
  }

  lemma {:induction false} UnquoteEscaped(s: string, tail: string)
    ensures UnquoteRest(Escape(s) + ("\"" + tail)) == Unquoted(s, tail, true)
  {
    if s == "" {
      assert Escape(s) + ("\"" + tail) == "\"" + tail;
      StepEnd(tail);
    } else {
      UnquoteEscaped(s[1..], tail);
      assert Escape(s) == Escaped(s[0]) + Escape(s[1..]);
      assert s == [s[0]] + s[1..];
      hide UnquoteRest, Escape, Escaped;
      Associative(Escaped(s[0]), Escape(s[1..]), "\"" + tail);
      StepOne(s[0], Escape(s[1..]) + ("\"" + tail));
    }
  }

  /** Unquoting undoes quoting, and stops exactly at what follows. */
  lemma UnquoteQuote(s: string, tail: string)
    ensures Unquote(Quote(s) + tail) == Unquoted(s, tail, true)
  {
    UnquoteEscaped(s, tail);
    hide UnquoteRest, Escape;
    assert (Quote(s) + tail)[1..] == Escape(s) + ("\"" + tail);
    assert (Quote(s) + tail)[0] == '"';
  }

  lemma {:induction false} EscapeAppend(s: string, c: char)
    ensures Escape(s + [c]) == Escape(s) + Escaped(c)
  {
    if s == "" {
      assert s + [c] == [c];
      assert [c][1..] == "";
    } else {
      assert (s + [c])[1..] == s[1..] + [c];
      EscapeAppend(s[1..], c);
    }
  }

  /** gconf_quote_string: every write stays within twice the length plus four. */
  method QuoteString(src: string) returns (dest: array<char>)
    requires NulFree(src)
    ensures fresh(dest) && dest.Length == 2 * |src| + 4
    ensures Holds(dest, Quote(src))
  {
    dest := new char[2 * |src| + 4](_ => '\0');
    var d := 0;
    dest[d] := '"';
    d := d + 1;
    var s := 0;
    ghost var written := "\"";
    while s < |src|
      invariant s <= |src| && d == |written| <= 2 * s + 1
      invariant forall i :: 0 <= i < d ==> dest[i] == written[i]
      invariant written == "\"" + Escape(src[..s]) && NulFree(written)
    {
      QuoteNext(src, s, written);
      written := written + Escaped(src[s]);
      if src[s] == '"' || src[s] == '\\' {
        dest[d] := '\\';
        d := d + 1;
      }
      dest[d] := src[s];
      d := d + 1;
      s := s + 1;
    }
    assert src[..s] == src;
    dest[d] := '"';
    d := d + 1;
    dest[d] := '\0';
    assert dest[..d] == written + "\"";
  }

  function Escaped(c: char): string { if c == '"' || c == '\\' then ['\\', c] else [c] }

  lemma QuoteNext(src: string, s: nat, written: string)
    requires s < |src| && written == "\"" + Escape(src[..s]) && NulFree(written) && NulFree(src)
    ensures written + Escaped(src[s]) == "\"" + Escape(src[..s + 1])
    ensures NulFree(written + Escaped(src[s]))
  {
    EscapeAppend(src[..s], src[s]);
    assert src[..s + 1] == src[..s] + [src[s]];
    assert src[s] in src;
    assert ("\"" + Escape(src[..s])) + Escaped(src[s]) == "\"" + (Escape(src[..s]) + Escaped(src[s]));
  }

  /** What is written so far and what is still to be read make up the result. */
  predicate UnquotesTo(written: string, rest: Unquoted, all: Unquoted) {
    all == Unquoted(written + rest.text, rest.tail, rest.ok)
  }

  /** How much of the text the next round reads, and the character it writes. */
  function Round(s: string): (nat, char)
    requires s != ""
  {
    if s[0] == '\\' && |s| > 1 && (s[1] == '"' || s[1] == '\\') then (2, s[1]) else (1, s[0])
  }

  lemma RoundIs(s: string)
    requires s != "" && s[0] != '"'
    ensures Round(s).0 <= |s|
    ensures UnquoteRest(s) == UnquoteRest(s[Round(s).0..]).(text := [Round(s).1] + UnquoteRest(s[Round(s).0..]).text)
  {
  }

  lemma Shift(written: string, s: string, all: Unquoted)
    requires s != "" && s[0] != '"' && UnquotesTo(written, UnquoteRest(s), all)
    ensures Round(s).0 <= |s| && UnquotesTo(written + [Round(s).1], UnquoteRest(s[Round(s).0..]), all)
  {
    RoundIs(s);
    hide UnquoteRest, Round;
    Regroup(written, Round(s).1, UnquoteRest(s[Round(s).0..]).text);
  }

  lemma Regroup(a: string, c: char, b: string)
    ensures a + ([c] + b) == (a + [c]) + b
  {
  }

  lemma Finish(written: string, s: string, all: Unquoted)
    requires UnquotesTo(written, UnquoteRest(s), all) && (s == "" || s[0] == '"')
    ensures all == if s == "" then Unquoted(written, "", false) else Unquoted(written, s[1..], true)
  {
    assert written + "" == written;
  }

  /** The state of the buffer in the middle of the loop: the text written so far at the front, and from
      the read position on what was there before. */
  ghost predicate Between(str: array<char>, written: string, s: nat, before: seq<char>)
    reads str
  {
    && str.Length == |before| && |written| < s < str.Length
    && (forall i :: 0 <= i < |written| ==> str[i] == written[i])
    && (forall i :: s <= i < str.Length ==> str[i] == before[i])
  }

  /** One round of the loop: copy a character, dropping the backslash of an escape. */
  method CopyNext(str: array<char>, dest: nat, s: nat, ghost written: string, ghost text: string, ghost before: seq<char>)
    returns (dest1: nat, s1: nat)
    requires Between(str, written, s, before) && dest == |written|
    requires NulFree(text) && s < |text| < |before| && before[..|text|] == text && before[|text|] == '\0' && text[s] != '"'
    modifies str
    ensures s1 == s + Round(text[s..]).0 && dest1 == dest + 1 && s1 <= |text|
    ensures Between(str, written + [Round(text[s..]).1], s1, before)
  {
    assert text[s] == before[s];
    assert s + 1 < |text| ==> text[s..][1] == text[s + 1] == before[s + 1];
    dest1, s1 := dest, s;
    if str[s1] == '\\' {
      s1 := s1 + 1;
      if str[s1] == '"' || str[s1] == '\\' {
        str[dest1] := str[s1];
        s1 := s1 + 1;
      } else {
        str[dest1] := '\\';
      }
    } else {
      str[dest1] := str[s1];
      s1 := s1 + 1;
    }
    dest1 := dest1 + 1;
  }

  lemma RoundNulFree(s: string, written: string)
    requires NulFree(s) && s != "" && NulFree(written)
    ensures NulFree(written + [Round(s).1])
  {
    assert s[0] in s && (|s| > 1 ==> s[1] in s);
  }

  lemma DropDrop(text: string, s: nat, k: nat)
    requires s + k <= |text|
    ensures text[s..][k..] == text[s + k..]
  {
  }

  /** gconf_unquote_string_inplace: the write position stays behind the read position (the program's
      own assertions), the text ends up at the front of the buffer, and what follows the closing mark
      is not touched. */
  method UnquoteStringInPlace(str: array<char>, ghost text: string) returns (end: nat, ok: bool)
    requires Holds(str, text)
    modifies str
    ensures ok == Unquote(text).ok
    ensures end == |text| - |Unquote(text).tail|
    ensures Text(str[..]) == Unquote(text).text
    ensures end <= str.Length && str[end..] == old(str[end..])
  {
    ghost var before := str[..];
    HoldsText(str, text);
    if str[0] != '"' { return 0, false; }
    ghost var u := UnquoteRest(text[1..]);
    end, ok := UnquoteLoop(str, text, before, u);
  }

  method UnquoteLoop(str: array<char>, ghost text: string, ghost before: seq<char>, ghost u: Unquoted)
    returns (end: nat, ok: bool)
    requires before == str[..] && NulFree(text) && 0 < |text| < |before| && before[..|text|] == text && before[|text|] == '\0'
    requires u == UnquoteRest(text[1..])
    modifies str
    ensures ok == u.ok && end == |text| - |u.tail| && end <= str.Length
    ensures Text(str[..]) == u.text
    ensures str[end..] == before[end..]
  {
    var dest, s := 0, 1;
    ghost var written := "";
    StartRounds(UnquoteRest(text[1..]), u);
    hide UnquoteRest, Round, UnquotesTo, Text, NulFree;
    while str[s] != '\0' && str[s] != '"'
      invariant dest == |written| && s <= |text| && Between(str, written, s, before)
      invariant UnquotesTo(written, UnquoteRest(text[s..]), u) && NulFree(written)
      decreases |text| - s
    {
      OneRound(text, s, written, u, before);
      ghost var c := Round(text[s..]).1;
      dest, s := CopyNext(str, dest, s, written, text, before);
      written := written + [c];
    }
    LastRound(text, s, written, u, before);
    ok := str[s] == '"';
    end := CloseText(str, dest, s, ok, written, before);
  }

  lemma StartRounds(rest: Unquoted, u: Unquoted)
    requires u == rest
    ensures UnquotesTo("", rest, u) && NulFree("")
  {
  }

  lemma OneRound(text: string, s: nat, written: string, u: Unquoted, before: seq<char>)
    requires NulFree(text) && s <= |text| < |before| && before[..|text|] == text && before[|text|] == '\0'
    requires before[s] != '\0' && before[s] != '"' && NulFree(written)
    requires UnquotesTo(written, UnquoteRest(text[s..]), u)
    ensures s < |text| && text[s] != '"' && s + Round(text[s..]).0 <= |text|
    ensures UnquotesTo(written + [Round(text[s..]).1], UnquoteRest(text[s + Round(text[s..]).0..]), u)
    ensures NulFree(written + [Round(text[s..]).1])
  {
    assert s < |text|;
    assert text[s..] != "" && text[s..][0] == text[s] == before[s];
    TailNulFree(text, s);
    RoundNulFree(text[s..], written);
    Shift(written, text[s..], u);
    hide UnquoteRest, Round, UnquotesTo, NulFree;
    DropDrop(text, s, Round(text[s..]).0);
  }

  lemma LastRound(text: string, s: nat, written: string, u: Unquoted, before: seq<char>)
    requires NulFree(text) && s <= |text| < |before| && before[..|text|] == text && before[|text|] == '\0'
    requires before[s] == '\0' || before[s] == '"'
    requires UnquotesTo(written, UnquoteRest(text[s..]), u)
    ensures u.text == written && u.ok == (before[s] == '"')
    ensures s + (if u.ok then 1 else 0) == |text| - |u.tail|
  {
    if s < |text| {
      CharNotNul(text, s);
      assert before[s] == text[s] == text[s..][0];
      assert text[s..][1..] == text[s + 1..];
    }
    Finish(written, text[s..], u);
  }

  /** End the text in the buffer. */
  method CloseText(str: array<char>, dest: nat, s: nat, ok: bool, ghost written: string, ghost before: seq<char>)
    returns (end: nat)
    requires Between(str, written, s, before) && dest == |written| && NulFree(written)
    modifies str
    ensures end == s + (if ok then 1 else 0) && end <= str.Length
    ensures Text(str[..]) == written && str[end..] == before[end..]
  {
    str[dest] := '\0';
    end := if ok then s + 1 else s;
    assert str[..dest] == written;
    TextIs(str[..], written);
  }

  lemma CharNotNul(text: string, s: nat)
    requires NulFree(text) && s < |text|
    ensures text[s] != '\0'
  {
  }

  lemma TailNulFree(text: string, s: nat)
    requires NulFree(text) && s <= |text|
    ensures NulFree(text[s..])
  {
  }
}
