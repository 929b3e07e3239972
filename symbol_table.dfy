/**
 * The symbol tables of the Morse engine: the forward table from a character
 * to its International Morse code (letters, figures and the word separator)
 * and the reverse table from a code back to its character.
 */
module SymbolTable {

  /** The word separator's code. */
  const Separator: string := "/"

  /** The characters the forward table has an entry for. */
  predicate IsTableChar(c: char)
  {
    'A' <= c <= 'Z' || '0' <= c <= '9' || c == ' '
  }

  /** A letter or figure code: one to five symbols, each a dot or a dash. */
  predicate IsDotDash(s: string)
  {
    1 <= |s| <= 5 && forall i :: 0 <= i < |s| ==> s[i] == '.' || s[i] == '-'
  }

  /** The forward table that `initMorseMap` installs. */
  function MorseTable(): map<char, string>
  {
    map[
      'A' := ".-", 'B' := "-...", 'C' := "-.-.", 'D' := "-..", 'E' := ".",
      'F' := "..-.", 'G' := "--.", 'H' := "....", 'I' := "..", 'J' := ".---",
      'K' := "-.-", 'L' := ".-..", 'M' := "--", 'N' := "-.", 'O' := "---",
      'P' := ".--.", 'Q' := "--.-", 'R' := ".-.", 'S' := "...", 'T' := "-",
      'U' := "..-", 'V' := "...-", 'W' := ".--", 'X' := "-..-", 'Y' := "-.--",
      'Z' := "--..",
      '0' := "-----", '1' := ".----", '2' := "..---", '3' := "...--",
      '4' := "....-", '5' := ".....", '6' := "-....", '7' := "--...",
      '8' := "---..", '9' := "----.",
      ' ' := Separator
    ]
  }

  /** No two keys of `m` share a code. */
  predicate Injective(m: map<char, string>)
  {
    forall a, b :: a in m && b in m && a != b ==> m[a] != m[b]
  }

  /**
   * `r` inverts `m`: its keys are exactly the codes of `m`, and each code
   * maps back to a character whose code it is.
   */
  predicate IsInverse(m: map<char, string>, r: map<string, char>)
  {
    r.Keys == m.Values &&
    forall s :: s in r ==> r[s] in m && m[r[s]] == s
  }

  /** The key set of the forward table: A-Z, 0-9 and the space, 37 keys in all. */
  lemma TableKeys()
    ensures forall c :: c in MorseTable() <==> IsTableChar(c)
    ensures |MorseTable()| == 37
  {
    KeysAreTableChars();
    LettersAreKeys();
    FiguresAreKeys();
    TableCharCount(MorseTable());
  }

  lemma KeysAreTableChars()
    ensures forall c :: c in MorseTable() ==> IsTableChar(c)
  {
  }

  lemma LettersAreKeys()
    ensures forall c :: 'A' <= c <= 'Z' ==> c in MorseTable()
  {
  }

  lemma FiguresAreKeys()
    ensures forall c :: '0' <= c <= '9' || c == ' ' ==> c in MorseTable()
  {
  }

  /** A map whose keys are exactly the table characters has 37 entries. */
  lemma TableCharCount(m: map<char, string>)
    requires forall c :: c in m <==> IsTableChar(c)
    ensures |m| == 37
  {
    TwoRangesAndSpace(m, 'A', 'Z', '0', '9');
  }

  /** Keys forming two disjoint character ranges above the space, plus the space. */
  lemma TwoRangesAndSpace(m: map<char, string>, lo: char, hi: char, lo2: char, hi2: char)
    requires ' ' < lo2 <= hi2 < lo <= hi <= '~'
    requires forall c :: c in m <==> lo <= c <= hi || lo2 <= c <= hi2 || c == ' '
    ensures |m| == (hi as int - lo as int + 1) + (hi2 as int - lo2 as int + 1) + 1
  {
    var upper, lower := CharRange(lo, hi), CharRange(lo2, hi2);
    CharRangeFacts(lo, hi);
    CharRangeFacts(lo2, hi2);
    assert m.Keys == upper + lower + {' '};
    assert upper * lower == {};
    assert ' ' !in upper + lower;
  }

  /** The characters from `lo` to `hi`, both included. */
  function CharRange(lo: char, hi: char): set<char>
    requires lo <= hi <= '~'
    decreases hi as int - lo as int
  {
    if lo == hi then {lo} else CharRange(lo, (hi as int - 1) as char) + {hi}
  }

  lemma {:induction false} CharRangeFacts(lo: char, hi: char)
    requires lo <= hi <= '~'
    ensures forall c :: c in CharRange(lo, hi) <==> lo <= c <= hi
    ensures |CharRange(lo, hi)| == hi as int - lo as int + 1
    decreases hi as int - lo as int
  {
    if lo != hi {
      CharRangeFacts(lo, (hi as int - 1) as char);
    }
  }

  /** Every letter or figure has a dot/dash code; only the space maps to "/". */
  lemma TableCodes()
    ensures forall c :: c in MorseTable() && c != ' ' ==> IsDotDash(MorseTable()[c])
    ensures MorseTable()[' '] == Separator
    ensures forall c :: c in MorseTable() && MorseTable()[c] == Separator ==> c == ' '
  {
  }

  /** The 37 codes are pairwise distinct. */
  lemma TableInjective()
    ensures Injective(MorseTable())
  {
    KeysAreTableChars();
    EqualLengthCodesDifferAtoM();
    EqualLengthCodesDifferNtoZ();
    EqualLengthCodesDifferFigures();
    InjectiveByLength(MorseTable());
  }

  /** Codes of two different keys that have the same length differ: keys A to M against the keys above them. */
  lemma EqualLengthCodesDifferAtoM()
    ensures forall a, b :: 'A' <= a <= 'M' && b in MorseTable() && a < b && |MorseTable()[a]| == |MorseTable()[b]| ==>
      MorseTable()[a] != MorseTable()[b]
  {
  }

  /** The same for keys N to Z. */
  lemma EqualLengthCodesDifferNtoZ()
    ensures forall a, b :: 'N' <= a <= 'Z' && b in MorseTable() && a < b && |MorseTable()[a]| == |MorseTable()[b]| ==>
      MorseTable()[a] != MorseTable()[b]
  {
  }

  /** The same for the figures and the space. */
  lemma EqualLengthCodesDifferFigures()
    ensures forall a, b :: ('0' <= a <= '9' || a == ' ') && b in MorseTable() && a < b && |MorseTable()[a]| == |MorseTable()[b]| ==>
      MorseTable()[a] != MorseTable()[b]
  {
  }

  /** Strings of different lengths differ, so only keys with equal-length codes need comparing. */
  lemma InjectiveByLength(m: map<char, string>)
    requires forall a, b :: a in m && b in m && a < b && |m[a]| == |m[b]| ==> m[a] != m[b]
    ensures Injective(m)
  {
    forall a, b | a in m && b in m && a != b
      ensures m[a] != m[b]
    {
      if |m[a]| == |m[b]| {
        if b < a {
          assert m[b] != m[a];
        }
      }
    }
  }

  /**
   * With any inverse `r` of the forward table, looking a character's code up
   * in `r` gives the character back, and looking a reverse entry's character
   * up in the forward table gives the code back.
   */
  lemma TableRoundTrip(r: map<string, char>)
    requires IsInverse(MorseTable(), r)
    ensures forall c :: c in MorseTable() ==> MorseTable()[c] in r && r[MorseTable()[c]] == c
    ensures forall s :: s in r ==> r[s] in MorseTable() && MorseTable()[r[s]] == s
  {
    TableInjective();
  }
}
