/**
 * What the encoder, the decoder and the frequency count compute, as
 * functions of the tables they read, with the properties the engine
 * promises about them.
 */
module Converter {
  import opened Strings
  import opened SymbolTable

  /** The token the encoder emits for one upper-cased character. */
  function EncodeChar(m: map<char, string>, c: char): string
  {
    if c in m then m[c] else Separator
  }

  /** One token per character of the upper-cased text. */
  function EncodeTokens(m: map<char, string>, text: string): (ts: seq<string>)
    ensures |ts| == |text|
    ensures forall i :: 0 <= i < |text| ==> ts[i] == EncodeChar(m, UpperChar(text[i]))
  {
    seq(|text|, i requires 0 <= i < |text| => EncodeChar(m, Upper(text)[i]))
  }

  /** `textToMorse`: every token followed by a space, then trimmed. */
  function Encode(m: map<char, string>, text: string): string
  {
    Trimmed(Spaced(EncodeTokens(m, text)))
  }

  /** The character the decoder emits for one token. */
  function DecodeChar(r: map<string, char>, token: string): char
  {
    if token in r then r[token]
    else if token == Separator then ' '
    else '\0'
  }

  /** `morseToText`: one character per space-separated piece, empty pieces included. */
  function Decode(r: map<string, char>, code: string): (text: string)
    ensures |text| == Spaces(code) + 1
  {
    var ts := Split(code);
    seq(|ts|, i requires 0 <= i < |ts| => DecodeChar(r, ts[i]))
  }

  /** Every code in `m` is non-empty and free of whitespace. */
  predicate Tokenisable(m: map<char, string>)
  {
    forall c :: c in m ==> m[c] != [] && NoSpace(m[c])
  }

  lemma TableTokenisable()
    ensures Tokenisable(MorseTable())
  {
    TableCodes();
  }

  /**
   * When no code is empty or holds whitespace, the encoder's output is its
   * tokens separated by single spaces, with no trailing space.
   */
  lemma EncodeJoins(m: map<char, string>, text: string)
    requires Tokenisable(m)
    ensures Encode(m, text) == Join(EncodeTokens(m, text))
  {
    TrimmedSpaced(EncodeTokens(m, text));
  }

  /**
   * The encoder's output splits back into exactly its tokens: one per input
   * character, so it has one space fewer than the text has characters.
   */
  lemma EncodeSplits(m: map<char, string>, text: string)
    requires Tokenisable(m) && text != []
    ensures Split(Encode(m, text)) == EncodeTokens(m, text)
    ensures Spaces(Encode(m, text)) == |text| - 1
  {
    var ts := EncodeTokens(m, text);
    forall i | 0 <= i < |ts|
      ensures ' ' !in ts[i]
    {
      assert NoSpace(ts[i]);
    }
    EncodeJoins(m, text);
    SplitJoin(ts);
  }

  lemma EncodeEmpty(m: map<char, string>)
    ensures Encode(m, "") == ""
  {
    assert EncodeTokens(m, "") == [];
  }

  lemma SosTokens()
    ensures EncodeTokens(MorseTable(), "SOS") == ["...", "---", "..."]
    ensures EncodeTokens(MorseTable(), "sos") == ["...", "---", "..."]
  {
    var m := MorseTable();
    assert m['S'] == "..." && m['O'] == "---";
    var ts := EncodeTokens(m, "SOS");
    assert ts[0] == "..." && ts[1] == "---" && ts[2] == "...";
    var ls := EncodeTokens(m, "sos");
    assert UpperChar('s') == 'S' && UpperChar('o') == 'O';
    assert ls[0] == "..." && ls[1] == "---" && ls[2] == "...";
  }

  lemma EncodeSos()
    ensures Encode(MorseTable(), "SOS") == "... --- ..."
    ensures Encode(MorseTable(), "sos") == "... --- ..."
  {
    TableTokenisable();
    SosTokens();
    EncodeJoins(MorseTable(), "SOS");
    EncodeJoins(MorseTable(), "sos");
    assert Join(["...", "---", "..."]) == "... --- ...";
  }

  /** With the table, a token is the separator exactly when its character is a space or has no entry. */
  lemma SeparatorToken(text: string, i: nat)
    requires i < |text|
    ensures EncodeTokens(MorseTable(), text)[i] == Separator <==> text[i] == ' ' || !IsTableChar(UpperChar(text[i]))
  {
    TableKeys();
    TableCodes();
    assert UpperChar(text[i]) == ' ' <==> text[i] == ' ';
  }

  /** "HELLO WORLD" yields the separator token exactly once, for its space. */
  lemma EncodeHelloWorld()
    ensures multiset(EncodeTokens(MorseTable(), "HELLO WORLD"))[Separator] == 1
    ensures EncodeTokens(MorseTable(), "HELLO WORLD")[5] == Separator
  {
    var text := "HELLO WORLD";
    var ts := EncodeTokens(MorseTable(), text);
    forall i | 0 <= i < |text|
      ensures ts[i] == Separator <==> i == 5
    {
      SeparatorToken(text, i);
      assert text[i] == ' ' <==> i == 5;
      assert IsTableChar(UpperChar(text[i]));
    }
    OnlyAt(ts, 5, Separator);
  }

  /** A token found at exactly one position occurs once. */
  lemma OnlyAt(ts: seq<string>, k: nat, t: string)
    requires k < |ts| && ts[k] == t
    requires forall i :: 0 <= i < |ts| && i != k ==> ts[i] != t
    ensures multiset(ts)[t] == 1
  {
    assert ts == ts[..k] + [t] + ts[k + 1..];
    assert t !in ts[..k] && t !in ts[k + 1..];
  }

  /** An unknown character is encoded exactly like a space. */
  lemma UnknownIsSeparator(c: char)
    requires !IsTableChar(UpperChar(c))
    ensures Encode(MorseTable(), [c]) == Encode(MorseTable(), " ") == Separator
  {
    TableKeys();
    TableTokenisable();
    EncodeJoins(MorseTable(), [c]);
    EncodeJoins(MorseTable(), " ");
  }

  /** The reverse table already maps "/" to a space, so the decoder's explicit "/" branch is never taken. */
  lemma SeparatorBranchUnreachable(r: map<string, char>)
    requires IsInverse(MorseTable(), r)
    ensures Separator in r && r[Separator] == ' '
    ensures forall token :: DecodeChar(r, token) == if token in r then r[token] else '\0'
  {
    TableCodes();
    TableRoundTrip(r);
  }

  /** Decoding the empty string yields one null character. */
  lemma DecodeEmpty(r: map<string, char>)
    requires IsInverse(MorseTable(), r)
    ensures Decode(r, "") == "\0"
  {
    TableCodes();
    assert "" !in MorseTable().Values;
  }

  lemma SosIsTableText()
    ensures forall i :: 0 <= i < |"SOS"| ==> IsTableChar(UpperChar("SOS"[i]))
    ensures Upper("SOS") == "SOS"
  {
  }

  lemma DecodeSos(r: map<string, char>)
    requires IsInverse(MorseTable(), r)
    ensures Decode(r, "... --- ...") == "SOS"
  {
    EncodeSos();
    SosIsTableText();
    RoundTripTableText(r, "SOS");
  }

  /** What a character comes back as after encoding and decoding. */
  function RoundTripChar(c: char): char
  {
    if UpperChar(c) in MorseTable() then UpperChar(c) else ' '
  }

  /**
   * Decoding the encoding of a non-empty text gives the upper-cased text,
   * with every character outside the table turned into a space.
   */
  lemma RoundTrip(r: map<string, char>, text: string)
    requires IsInverse(MorseTable(), r) && text != []
    ensures Decode(r, Encode(MorseTable(), text)) == seq(|text|, i requires 0 <= i < |text| => RoundTripChar(text[i]))
  {
    var m := MorseTable();
    TableTokenisable();
    EncodeSplits(m, text);
    TableRoundTrip(r);
    TableCodes();
    var d := Decode(r, Encode(m, text));
    forall i | 0 <= i < |text|
      ensures d[i] == RoundTripChar(text[i])
    {
      var u := UpperChar(text[i]);
      assert EncodeTokens(m, text)[i] == EncodeChar(m, u);
    }
  }

  /** For text made only of letters, figures and spaces, the round trip is upper-casing. */
  lemma RoundTripTableText(r: map<string, char>, text: string)
    requires IsInverse(MorseTable(), r) && text != []
    requires forall i :: 0 <= i < |text| ==> IsTableChar(UpperChar(text[i]))
    ensures Decode(r, Encode(MorseTable(), text)) == Upper(text)
  {
    RoundTrip(r, text);
    TableKeys();
  }

  /** The codes the encoder records as seen: those of the recognised characters. */
  function CodesUsed(m: map<char, string>, text: string): (s: set<string>)
    ensures s <= m.Values
  {
    set i | 0 <= i < |text| && UpperChar(text[i]) in m :: m[UpperChar(text[i])]
  }

  /** With the table, "/" is recorded exactly when the text holds a space. */
  lemma SeparatorRecorded(text: string)
    ensures Separator in CodesUsed(MorseTable(), text) <==> ' ' in text
  {
    TableCodes();
    TableKeys();
    if ' ' in text {
      var i :| 0 <= i < |text| && text[i] == ' ';
      assert MorseTable()[UpperChar(text[i])] in CodesUsed(MorseTable(), text);
    }
  }

  /** The recognised characters of the upper-cased text, in order. */
  function Recognised(m: map<char, string>, u: string): (s: string)
    ensures |s| <= |u|
    ensures forall c :: c in m ==> multiset(s)[c] == multiset(u)[c]
    ensures forall c :: c !in m ==> multiset(s)[c] == 0
  {
    if u == [] then []
    else
      assert u == [u[0]] + u[1..];
      (if u[0] in m then [u[0]] else []) + Recognised(m, u[1..])
  }

  /** `logFrequency`'s result: each recognised character with its number of occurrences. */
  function Frequencies(m: map<char, string>, text: string): (r: map<char, int>)
    ensures r.Keys <= m.Keys
    ensures forall c :: c in r ==> r[c] >= 1
  {
    Counts(m, Upper(text))
  }

  /** Each character of `u` that has a table entry, with its number of occurrences. */
  function Counts(m: map<char, string>, u: string): map<char, int>
  {
    map c | c in m && c in u :: multiset(u)[c]
  }

  /** One more character bumps its own count (from 0 if absent) when it has an entry, and nothing else. */
  lemma CountsStep(m: map<char, string>, u: string, x: char)
    ensures Counts(m, u + [x]) ==
      if x in m then Counts(m, u)[x := (if x in Counts(m, u) then Counts(m, u)[x] else 0) + 1]
      else Counts(m, u)
  {
    assert multiset(u + [x]) == multiset(u) + multiset{x};
    assert forall c :: c in u + [x] <==> c in u || c == x;
  }

  /**
   * The keys are the recognised characters of the upper-cased text, each
   * counted as often as it occurs; the counts are the multiplicities of the
   * recognised characters, so together they sum to at most the text length.
   */
  lemma FrequencyCounts(m: map<char, string>, text: string)
    ensures forall c :: c in Frequencies(m, text) <==> c in m && c in Upper(text)
    ensures forall c :: c in Frequencies(m, text) ==> Frequencies(m, text)[c] >= 1
    ensures forall c :: multiset(Recognised(m, Upper(text)))[c] == Frequencies(m, text)[c] <== c in Frequencies(m, text)
    ensures forall c :: multiset(Recognised(m, Upper(text)))[c] == 0 <== c !in Frequencies(m, text)
    ensures |multiset(Recognised(m, Upper(text)))| <= |text|
  {
    var u := Upper(text);
    assert |multiset(Recognised(m, u))| == |Recognised(m, u)|;
  }
}
