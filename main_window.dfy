/**
 * The conversion engine of `MainWindow`: its member state (the two tables,
 * the history list, the conversion queue, the set of codes seen, the
 * frequency map and the trie root) and the member functions that update it.
 * The Qt widgets are not modelled: a slot takes the text its line edit
 * would hold as a parameter and returns the entries its list widget
 * would gain.
 */
module Window {
  import opened Strings
  import opened SymbolTable
  import opened CodeTrie
  import opened Converter

  /** The trie `buildMorseTree` builds from the forward table. */
  ghost function MorseTrie(): Tree
  {
    InsertKeys(MorseTable(), MorseTable().Keys)
  }

  /** No two table entries walk the same path: letters and figures by their codes, the space by none. */
  lemma TablePathsDistinct()
    ensures DistinctPaths(MorseTable())
  {
    var m := MorseTable();
    TableCodes();
    TableInjective();
    forall c | c in m && c != ' '
      ensures Path(m[c]) == m[c] && m[c] != []
    {
      assert IsDotDash(m[c]);
      PathOfPath(m[c]);
    }
    assert Path(m[' ']) == [];
  }

  /**
   * Following a letter's or figure's code from the root of the built trie
   * reaches a node holding that character.
   */
  lemma BuiltTrieValues()
    ensures forall c :: c in MorseTable() ==>
      Reach(MorseTrie(), MorseTable()[c]).Node? && Reach(MorseTrie(), MorseTable()[c]).value == [c]
  {
    TablePathsDistinct();
    InsertKeysValueAt(MorseTable(), MorseTable().Keys);
  }

  /** The separator's "/" takes no edge, so the root of the built trie holds " ". */
  lemma BuiltTrieRoot()
    ensures MorseTrie().Node? && MorseTrie().value == " "
  {
    var m := MorseTable();
    TablePathsDistinct();
    InsertKeysValueAt(m, m.Keys);
    assert ' ' in m.Keys && m[' '] == Separator;
    assert ValueAt(MorseTrie(), Separator) == " ";
  }

  /**
   * The pre-order listing of the built trie starts with " " and holds each
   * of the 37 table characters exactly once, and nothing else.
   */
  lemma BuiltTrieLabels()
    ensures Labels(MorseTrie()) != [] && Labels(MorseTrie())[0] == " "
    ensures |Labels(MorseTrie())| == 37
    ensures forall c :: c in MorseTable() ==> multiset(Labels(MorseTrie()))[[c]] == 1
    ensures forall s :: s in Labels(MorseTrie()) ==> |s| == 1 && s[0] in MorseTable()
  {
    TablePathsDistinct();
    TableKeys();
    BuiltTrieRoot();
    InsertKeysListing(MorseTable(), MorseTable().Keys);
    ListingHead(MorseTrie());
  }

  /** The built trie has at most six levels: no code is longer than five symbols. */
  lemma BuiltTrieHeight()
    ensures Height(MorseTrie()) <= 6
  {
    var m := MorseTable();
    TableCodes();
    forall c | c in m
      ensures |Path(m[c])| <= 5
    {
    }
    InsertKeysHeight(m, m.Keys, 5);
  }

  /** Each queued text, encoded, in queue order. */
  function EncodeAll(m: map<char, string>, items: seq<string>): (r: seq<string>)
    ensures |r| == |items|
    ensures forall i :: 0 <= i < |items| ==> r[i] == Encode(m, items[i])
  {
    if items == [] then [] else EncodeAll(m, items[..|items| - 1]) + [Encode(m, items[|items| - 1])]
  }

  /** The codes recorded while encoding each of `items`. */
  function CodesUsedAll(m: map<char, string>, items: seq<string>): (s: set<string>)
    ensures s <= m.Values
  {
    if items == [] then {} else CodesUsedAll(m, items[..|items| - 1]) + CodesUsed(m, items[|items| - 1])
  }

  lemma CodesUsedStep(m: map<char, string>, text: string, i: nat)
    requires i < |text|
    ensures CodesUsed(m, text[..i + 1]) ==
      CodesUsed(m, text[..i]) + (if UpperChar(text[i]) in m then {m[UpperChar(text[i])]} else {})
  {
    var a := text[..i];
    var b := text[..i + 1];
    assert forall j :: 0 <= j < i ==> a[j] == b[j] == text[j];
  }

  lemma EmptyUnion(m: map<char, string>)
    ensures map[] + m == m
  {
  }

  /** Inverting every entry of `m` into an empty map gives an inverse of `m`. */
  lemma EmptyInverse(m: map<char, string>, r: map<string, char>)
    requires r.Keys == m.Values
    requires forall s :: s in m.Values ==> r[s] in m && m[r[s]] == s
    ensures IsInverse(m, r)
  {
  }

  class MainWindow {
    var morseMap: map<char, string>
    var reverseMorseMap: map<string, char>
    var historyList: seq<string>
    var conversionQueue: seq<string>
    var uniqueMorseSet: set<string>
    var frequencyMap: map<char, int>
    var morseTreeRoot: Tree

    /** The state between two slot invocations, once the constructor is done. */
    ghost predicate Valid()
      reads this
    {
      morseMap == MorseTable() &&
      IsInverse(morseMap, reverseMorseMap) &&
      morseTreeRoot == MorseTrie() &&
      conversionQueue == [] &&
      uniqueMorseSet <= morseMap.Values &&
      frequencyMap.Keys <= morseMap.Keys
    }

    /**
     * The root starts null; the constructor fills the tables, builds the
     * trie and loads the history, here the lines the history file holds.
     */
    constructor (savedHistory: seq<string>)
      ensures Valid()
      ensures historyList == savedHistory
      ensures uniqueMorseSet == {} && frequencyMap == map[]
    {
      morseMap := map[];
      reverseMorseMap := map[];
      historyList := [];
      conversionQueue := [];
      uniqueMorseSet := {};
      frequencyMap := map[];
      morseTreeRoot := Nil;
      new;
      InitMorseMap();
      EmptyUnion(MorseTable());
      InitializeReverseMorseCodeMap();
      EmptyInverse(morseMap, reverseMorseMap);
      TablePathsDistinct();
      BuildMorseTree();
      assert morseTreeRoot == MorseTrie();
      LoadHistory(savedHistory);
    }

    /** `initMorseMap`: store every table entry, overwriting any earlier one for the same key. */
    method InitMorseMap()
      modifies this`morseMap
      ensures morseMap == old(morseMap) + MorseTable()
    {
      morseMap := morseMap + MorseTable();
    }

    /**
     * `initializeReverseMorseCodeMap`: visit the forward entries in any
     * order and map each code back to its character. Every code becomes a
     * key that leads back to a character with that code; other keys keep
     * their entries; with distinct codes the result is the exact inverse.
     */
    method InitializeReverseMorseCodeMap()
      modifies this`reverseMorseMap
      ensures reverseMorseMap.Keys == old(reverseMorseMap).Keys + morseMap.Values
      ensures forall s :: s in old(reverseMorseMap) && s !in morseMap.Values ==>
        reverseMorseMap[s] == old(reverseMorseMap)[s]
      ensures forall s :: s in morseMap.Values ==> reverseMorseMap[s] in morseMap && morseMap[reverseMorseMap[s]] == s
      ensures Injective(morseMap) ==> forall c :: c in morseMap ==> reverseMorseMap[morseMap[c]] == c
    {
      var pending := morseMap.Keys;
      ghost var done: set<char> := {};
      while pending != {}
        invariant pending <= morseMap.Keys && done == morseMap.Keys - pending
        invariant reverseMorseMap.Keys == old(reverseMorseMap).Keys + (set c | c in done :: morseMap[c])
        invariant forall s :: s in old(reverseMorseMap) && s !in (set c | c in done :: morseMap[c]) ==>
          reverseMorseMap[s] == old(reverseMorseMap)[s]
        invariant forall c :: c in done ==> reverseMorseMap[morseMap[c]] in done && morseMap[reverseMorseMap[morseMap[c]]] == morseMap[c]
        decreases pending
      {
        var c :| c in pending;
        reverseMorseMap := reverseMorseMap[morseMap[c] := c];
        pending := pending - {c};
        done := done + {c};
      }
      assert (set c | c in done :: morseMap[c]) == morseMap.Values;
    }

    /**
     * `buildMorseTree`: allocate a fresh empty root, then visit the forward
     * entries in any order, inserting each character along its code. When
     * no two codes walk the same path the result does not depend on the
     * order: it is always the same trie.
     */
    method BuildMorseTree()
      modifies this`morseTreeRoot
      ensures morseTreeRoot.Node?
      ensures DistinctPaths(morseMap) ==> morseTreeRoot == InsertKeys(morseMap, morseMap.Keys)
    {
      morseTreeRoot := NewNode("");
      var pending := morseMap.Keys;
      ghost var done: set<char> := {};
      while pending != {}
        invariant pending <= morseMap.Keys && done == morseMap.Keys - pending
        invariant morseTreeRoot.Node?
        invariant DistinctPaths(morseMap) ==> morseTreeRoot == InsertKeys(morseMap, done)
        decreases pending
      {
        var c :| c in pending;
        if DistinctPaths(morseMap) {
          InsertKeysLast(morseMap, done + {c}, c);
          assert done + {c} - {c} == done;
        }
        morseTreeRoot := Insert(morseTreeRoot, morseMap[c], [c]);
        pending := pending - {c};
        done := done + {c};
      }
      assert done == morseMap.Keys;
    }

    /**
     * `traverseMorseTree`: append, in pre-order, every non-empty node value
     * followed by one space to `result`.
     */
    method TraverseMorseTree(node: Tree, result: string) returns (out: string)
      ensures out == result + Spaced(Labels(node))
      decreases node
    {
      out := result;
      if node.Node? {
        var top := if node.value != "" then node.value + " " else "";
        SpacedLabels(node);
        out := out + top;
        out := TraverseMorseTree(node.left, out);
        out := TraverseMorseTree(node.right, out);
        assert out == result + (top + Spaced(Labels(node.left)) + Spaced(Labels(node.right)));
      }
    }

    /**
     * `textToMorse`: one token per upper-cased character, each followed by
     * a space, the result trimmed; the code of every recognised character
     * is recorded in `uniqueMorseSet`.
     */
    method TextToMorse(text: string) returns (morseCode: string)
      modifies this`uniqueMorseSet
      ensures morseCode == Encode(morseMap, text)
      ensures uniqueMorseSet == old(uniqueMorseSet) + CodesUsed(morseMap, text)
    {
      var upper := Upper(text);
      ghost var ts := EncodeTokens(morseMap, text);
      var acc := "";
      var i := 0;
      while i < |upper|
        invariant 0 <= i <= |upper|
        invariant acc == Spaced(ts[..i])
        invariant uniqueMorseSet == old(uniqueMorseSet) + CodesUsed(morseMap, text[..i])
      {
        var ch := upper[i];
        SpacedAppend(ts[..i], [ts[i]]);
        assert ts[..i + 1] == ts[..i] + [ts[i]];
        CodesUsedStep(morseMap, text, i);
        if ch in morseMap {
          acc := acc + morseMap[ch] + " ";
          uniqueMorseSet := uniqueMorseSet + {morseMap[ch]};
        } else {
          acc := acc + "/ ";
        }
        i := i + 1;
      }
      assert ts[..i] == ts;
      assert text[..i] == text;
      morseCode := Trimmed(acc);
    }

    /**
     * `morseToText`: split on single spaces and emit one character per
     * piece: the reverse-table entry, a space for "/", a null character
     * otherwise.
     */
    method MorseToText(morseCode: string) returns (plainText: string)
      ensures plainText == Decode(reverseMorseMap, morseCode)
    {
      var tokens := Split(morseCode);
      plainText := "";
      var i := 0;
      while i < |tokens|
        invariant 0 <= i <= |tokens|
        invariant |plainText| == i
        invariant forall j :: 0 <= j < i ==> plainText[j] == DecodeChar(reverseMorseMap, tokens[j])
      {
        var token := tokens[i];
        if token in reverseMorseMap {
          plainText := plainText + [reverseMorseMap[token]];
        } else if token == "/" {
          plainText := plainText + " ";
        } else {
          plainText := plainText + "\0";
        }
        i := i + 1;
      }
    }

    /**
     * `processQueue`: pop every queued text in FIFO order, encode it, show
     * it and append it to the history. Earlier history is kept as it was;
     * `shown` is what the list widget gains, the same encodings.
     */
    method ProcessQueue() returns (shown: seq<string>)
      modifies this`conversionQueue, this`historyList, this`uniqueMorseSet
      ensures conversionQueue == []
      ensures shown == EncodeAll(morseMap, old(conversionQueue))
      ensures historyList == old(historyList) + shown
      ensures uniqueMorseSet == old(uniqueMorseSet) + CodesUsedAll(morseMap, old(conversionQueue))
    {
      ghost var items := conversionQueue;
      ghost var k := 0;
      shown := [];
      while conversionQueue != []
        invariant 0 <= k <= |items| && conversionQueue == items[k..]
        invariant shown == EncodeAll(morseMap, items[..k])
        invariant historyList == old(historyList) + shown
        invariant uniqueMorseSet == old(uniqueMorseSet) + CodesUsedAll(morseMap, items[..k])
        decreases |conversionQueue|
      {
        var plainText := conversionQueue[0];
        conversionQueue := conversionQueue[1..];
        var morseCode := TextToMorse(plainText);
        shown := shown + [morseCode];
        historyList := historyList + [morseCode];
        assert items[..k + 1][..k] == items[..k];
        k := k + 1;
      }
      assert items[..k] == items;
    }

    /**
     * `logFrequency`: clear the frequency map, then count each upper-cased
     * character that has a table entry.
     */
    method LogFrequency(text: string)
      modifies this`frequencyMap
      ensures frequencyMap == Frequencies(morseMap, text)
    {
      frequencyMap := map[];
      var upper := Upper(text);
      var i := 0;
      while i < |upper|
        invariant 0 <= i <= |upper|
        invariant frequencyMap == Counts(morseMap, upper[..i])
      {
        var ch := upper[i];
        CountsStep(morseMap, upper[..i], ch);
        assert upper[..i + 1] == upper[..i] + [ch];
        if ch in morseMap {
          frequencyMap := frequencyMap[ch := (if ch in frequencyMap then frequencyMap[ch] else 0) + 1];
        }
        i := i + 1;
      }
      assert upper[..i] == upper;
    }

    /** `loadHistory`, given the lines the history file holds: append each, in order. */
    method LoadHistory(lines: seq<string>)
      modifies this`historyList
      ensures historyList == old(historyList) + lines
    {
      var i := 0;
      while i < |lines|
        invariant 0 <= i <= |lines|
        invariant historyList == old(historyList) + lines[..i]
      {
        historyList := historyList + [lines[i]];
        assert lines[..i + 1] == lines[..i] + [lines[i]];
        i := i + 1;
      }
      assert lines[..i] == lines;
    }

    /**
     * First button: show the text, record it in the history and count its
     * characters; `shown` is what the list widget gains.
     */
    method SubmitText(plainText: string) returns (shown: string)
      requires Valid()
      modifies this`historyList, this`frequencyMap
      ensures Valid()
      ensures shown == plainText
      ensures historyList == old(historyList) + [shown]
      ensures frequencyMap == Frequencies(MorseTable(), plainText)
    {
      shown := plainText;
      historyList := historyList + [plainText];
      LogFrequency(plainText);
      assert frequencyMap.Keys <= morseMap.Keys;
    }

    /**
     * Second button: ignore an empty text; otherwise queue it and drain the
     * queue. `shown` is what the list widget gains: nothing for an empty
     * text, otherwise its Morse encoding, which the history gains too.
     */
    method ConvertText(plainText: string) returns (shown: seq<string>)
      requires Valid()
      modifies this`conversionQueue, this`historyList, this`uniqueMorseSet
      ensures Valid()
      ensures plainText == "" ==> shown == [] && historyList == old(historyList) && uniqueMorseSet == old(uniqueMorseSet)
      ensures plainText != "" ==> shown == [Encode(MorseTable(), plainText)]
      ensures historyList == old(historyList) + shown
      ensures plainText != "" ==> uniqueMorseSet == old(uniqueMorseSet) + CodesUsed(MorseTable(), plainText)
    {
      if plainText == "" {
        return [];
      }
      conversionQueue := conversionQueue + [plainText];
      shown := ProcessQueue();
      assert [plainText][..0] == [];
    }

    /** Third button: decode the Morse text and return the decoding, the entry the second list widget gains; record the Morse text in the history. */
    method DecodeText(morseCode: string) returns (plainText: string)
      requires Valid()
      modifies this`historyList
      ensures Valid()
      ensures plainText == Decode(reverseMorseMap, morseCode)
      ensures historyList == old(historyList) + [morseCode]
    {
      plainText := MorseToText(morseCode);
      historyList := historyList + [morseCode];
    }
  }
}
