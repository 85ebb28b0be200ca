/** libs/src/libs9/s9.c: the predictive-text index.  Words are grouped by length and by the packed sequence of
    their keys; looking a digit sequence up lists the words that are spelled by it. */
module S9 {
  import opened Words
  import opened Options

  // ----- keys -----

  function ToLower(c: char): char {
    if 'A' <= c <= 'Z' then (c as int + 32) as char else c
  }

  /** `get_key_by_char`. */
  function KeyByChar(ch: char): int {
    var c := ToLower(ch);
    if 'a' <= c <= 'c' then 2
    else if 'd' <= c <= 'f' then 3
    else if 'g' <= c <= 'i' then 4
    else if 'j' <= c <= 'l' then 5
    else if 'm' <= c <= 'o' then 6
    else if 'p' <= c <= 's' then 7
    else if 't' <= c <= 'v' then 8
    else if 'w' <= c <= 'z' then 9
    else -1
  }

  /** A key, from zero. */
  type Digit = d: nat | d < 8

  /** Sixty-four bits hold twenty-one keys. */
  const MAX_LENGTH := 21

  /** The keys that spell a word, if it can be spelled. */
  function Spelling(word: string): Option<seq<Digit>>
  {
    if |word| > MAX_LENGTH then None else Keys(word)
  }

  function Keys(word: string): (r: Option<seq<Digit>>)
    ensures r.Some? ==> |r.value| == |word|
  {
    if word == "" then Some([])
    else
      var front, k := Keys(word[..|word| - 1]), KeyByChar(word[|word| - 1]);
      if front == None || k < 0 then None else Some(front.value + [k - 2])
  }

  /** A sequence of the characters 2 to 9. */
  function Sequence(s: string): Option<seq<Digit>> {
    if |s| > MAX_LENGTH then None else Numbers(s)
  }

  function Numbers(s: string): (r: Option<seq<Digit>>)
    ensures r.Some? ==> |r.value| == |s|
  {
    if s == "" then Some([])
    else
      var front, c := Numbers(s[..|s| - 1]), s[|s| - 1];
      if front == None || c < '2' || c > '9' then None else Some(front.value + [c as int - '2' as int])
  }

  /** Three bits for each key, the first lowest. */
  function Packed(s: seq<Digit>): nat {
    if s == [] then 0 else Packed(s[..|s| - 1]) + Scale(s[|s| - 1], 3 * (|s| - 1))
  }

  lemma {:induction false} PackedFits(s: seq<Digit>)
    ensures Packed(s) < Pow2(3 * |s|)
    decreases |s|
  {
    if s != [] {
      var n := |s| - 1;
      PackedFits(s[..n]);
      ScaleBound(s[n], 3 * n, 3) by { assert Pow2(3) == 8; }
      hide Packed, Scale;
      DigitFits(s[n], n);
      PackedStep(s);
    }
  }

  lemma PackedStep(s: seq<Digit>)
    requires s != []
    ensures Packed(s) == Packed(s[..|s| - 1]) + Scale(s[|s| - 1], 3 * (|s| - 1))
  {
    hide Scale;
  }

  /** A digit above `n` others stays below the next. */
  lemma DigitFits(d: Digit, n: nat)
    ensures Scale(d, 3 * n) + Pow2(3 * n) <= Pow2(3 * n + 3)
  {
    ScaledPow(d, 3 * n);
    hide Scale;
  }

  lemma {:induction false} ScaledPow(d: Digit, k: nat)
    ensures Scale(d, k) + Pow2(k) <= Pow2(k + 3)
    decreases k
  {
    if k > 0 {
      ScaledPow(d, k - 1);
    } else {
      assert Pow2(3) == 8;
    }
  }

  /** Packing is injective on sequences of one length. */
  lemma {:induction false} PackedInjective(s: seq<Digit>, t: seq<Digit>)
    requires |s| == |t| && Packed(s) == Packed(t)
    ensures s == t
    decreases |s|
  {
    if s != [] {
      var n := |s| - 1;
      PackedStep(s);
      PackedStep(t);
      PackedFits(s[..n]);
      PackedFits(t[..n]);
      TopDigit(Packed(s[..n]), s[n], 3 * n);
      TopDigit(Packed(t[..n]), t[n], 3 * n);
      hide Packed, Scale, Pow2, Drop;
      PackedInjective(s[..n], t[..n]);
      assert s == s[..n] + [s[n]] && t == t[..n] + [t[n]];
    }
  }

  lemma TopDigit(a: nat, d: nat, k: nat)
    requires a < Pow2(k)
    ensures Drop(a + Scale(d, k), k) == d
  {
    DropMinusScaled(a + Scale(d, k), d, k);
    DropNone(a, k);
    hide Drop, Scale, Pow2;
  }

  lemma {:induction false} DropNone(a: nat, k: nat)
    requires a < Pow2(k)
    ensures Drop(a, k) == 0
    decreases k
  {
    if k > 0 {
      DropNone(a / 2, k - 1);
    }
  }

  /** Up to twenty-one keys stay within a signed 64-bit number. */
  lemma PackedIsPositive(s: seq<Digit>)
    requires |s| <= MAX_LENGTH
    ensures Packed(s) < 0x8000_0000_0000_0000
  {
    PackedFits(s);
    PowGrows(3 * |s|, 63);
    Pow63();
    hide Packed, Pow2;
  }

  lemma {:induction false} PowGrows(a: nat, b: nat)
    requires a <= b
    ensures Pow2(a) <= Pow2(b)
    decreases b - a
  {
    if a < b {
      PowGrows(a, b - 1);
    }
  }

  lemma Pow63()
    ensures Pow2(63) == 0x8000_0000_0000_0000
  {
    PowAdds(31, 32);
    assert Pow2(8) == 0x100;
    PowAdds(8, 8);
    PowAdds(16, 16);
    assert Pow2(32) == 2 * Pow2(31);
  }

  lemma {:induction false} PowAdds(a: nat, b: nat)
    ensures Pow2(a + b) == Pow2(a) * Pow2(b)
    decreases b
  {
    if b > 0 {
      PowAdds(a, b - 1);
      Doubles(Pow2(a), Pow2(b - 1));
    }
  }

  lemma Doubles(x: int, y: int)
    ensures 2 * (x * y) == x * (2 * y)
  {}

  /** The bit-or of the loops adds a key above those already there. */
  lemma OrAdds(s: seq<Digit>, d: Digit)
    ensures Or(Packed(s), Scale(d, 3 * |s|)) == Packed(s + [d])
  {
    PackedFits(s);
    DropNone(Packed(s), 3 * |s|);
    OrScaled(Packed(s), d, 3 * |s|);
    assert (s + [d])[..|s|] == s;
    hide Or, Scale, Pow2, Drop;
  }

  /** What a spelling is stored and looked up under; -1 for none. */
  function KeyOf(s: Option<seq<Digit>>): int {
    if s == None then -1 else Packed(s.value)
  }

  method GetKey(word: string) returns (key: int)
    ensures key == KeyOf(Spelling(word))
  {
    if |word| > MAX_LENGTH {
      return -1;
    }
    hide Packed, Or, Scale;
    key := 0;
    PackedNone();
    assert word[..0] == "" && word[..|word|] == word;
    for i := 0 to |word|
      invariant Keys(word[..i]).Some? && key == Packed(Keys(word[..i]).value)
    {
      NextKeys(word, i);
      var c := KeyByChar(word[i]);
      if c < 0 {
        KeysFail(word, i + 1);
        return -1;
      }
      OrAdds(Keys(word[..i]).value, c - 2);
      key := Or(key, Scale(c - 2, 3 * i));
    }
  }

  lemma PackedNone()
    ensures Packed([]) == 0
  {}

  lemma NextKeys(word: string, i: nat)
    requires i < |word|
    ensures var front, k := Keys(word[..i]), KeyByChar(word[i]);
            Keys(word[..i + 1]) == if front == None || k < 0 then None else Some(front.value + [k - 2])
  {
    assert word[..i + 1][..i] == word[..i];
    hide KeyByChar;
  }

  lemma {:induction false} KeysFail(word: string, i: nat)
    requires i <= |word| && Keys(word[..i]) == None
    ensures Keys(word) == None
    decreases |word| - i
  {
    if i < |word| {
      NextKeys(word, i);
      KeysFail(word, i + 1);
    } else {
      assert word[..i] == word;
    }
  }

  method GetKeyBySequence(s: string) returns (key: int)
    ensures key == KeyOf(Sequence(s))
  {
    if |s| > MAX_LENGTH {
      return -1;
    }
    hide Packed, Or, Scale;
    key := 0;
    PackedNone();
    assert s[..0] == "" && s[..|s|] == s;
    for i := 0 to |s|
      invariant Numbers(s[..i]).Some? && key == Packed(Numbers(s[..i]).value)
    {
      NextNumbers(s, i);
      if s[i] < '2' || s[i] > '9' {
        NumbersFail(s, i + 1);
        return -1;
      }
      OrAdds(Numbers(s[..i]).value, s[i] as int - '2' as int);
      key := Or(key, Scale(s[i] as int - '2' as int, 3 * i));
    }
  }

  lemma NextNumbers(s: string, i: nat)
    requires i < |s|
    ensures var front, c := Numbers(s[..i]), s[i];
            Numbers(s[..i + 1]) == if front == None || c < '2' || c > '9' then None else Some(front.value + [c as int - '2' as int])
  {
    assert s[..i + 1][..i] == s[..i];
  }

  lemma {:induction false} NumbersFail(s: string, i: nat)
    requires i <= |s| && Numbers(s[..i]) == None
    ensures Numbers(s) == None
    decreases |s| - i
  {
    if i < |s| {
      NextNumbers(s, i);
      NumbersFail(s, i + 1);
    } else {
      assert s[..i] == s;
    }
  }

  // ----- the keypad -----

  /** The letters on a key. */
  function Letters(key: int): string {
    if key == 2 then "abcABC" else if key == 3 then "defDEF" else if key == 4 then "ghiGHI" else if key == 5 then "jklJKL"
    else if key == 6 then "mnoMNO" else if key == 7 then "pqrsPQRS" else if key == 8 then "tuvTUV" else if key == 9 then "wxyzWXYZ"
    else ""
  }

  /** A character is typed with the key that bears it, in either case; every other character has no key. */
  lemma Keypad(c: char)
    ensures forall key :: KeyByChar(c) == key && key != -1 <==> c in Letters(key)
    ensures KeyByChar(c) == -1 <==> forall key :: c !in Letters(key)
  {
    KeyBears(c);
    forall key ensures c in Letters(key) <==> KeyByChar(c) == key && key != -1 {
      BorneBy(c, key);
    }
    hide Letters, KeyByChar;
    assert KeyByChar(c) != -1 ==> c in Letters(KeyByChar(c));
  }

  lemma KeyBears(c: char)
    ensures KeyByChar(c) != -1 ==> c in Letters(KeyByChar(c))
    ensures KeyByChar(c) == -1 || 2 <= KeyByChar(c) <= 9
  {
    KeyRanges(c);
    BorneBy(c, KeyByChar(c));
    hide Letters, KeyByChar;
  }

  lemma BorneBy(c: char, key: int)
    ensures c in Letters(key) <==> KeyByChar(c) == key && key != -1
  {
    LettersAre(c, key);
    KeyRanges(c);
    hide Letters, KeyByChar;
  }

  lemma InSix(c: char, s: string)
    requires |s| == 6
    ensures c in s <==> c == s[0] || c == s[1] || c == s[2] || c == s[3] || c == s[4] || c == s[5]
  {}

  lemma InEight(c: char, s: string)
    requires |s| == 8
    ensures c in s <==> c == s[0] || c == s[1] || c == s[2] || c == s[3] || c == s[4] || c == s[5] || c == s[6] || c == s[7]
  {}

  lemma LettersAre(c: char, key: int)
    ensures c in Letters(key) <==>
            (key == 2 && ('a' <= c <= 'c' || 'A' <= c <= 'C')) || (key == 3 && ('d' <= c <= 'f' || 'D' <= c <= 'F')) ||
            (key == 4 && ('g' <= c <= 'i' || 'G' <= c <= 'I')) || (key == 5 && ('j' <= c <= 'l' || 'J' <= c <= 'L')) ||
            (key == 6 && ('m' <= c <= 'o' || 'M' <= c <= 'O')) || (key == 7 && ('p' <= c <= 's' || 'P' <= c <= 'S')) ||
            (key == 8 && ('t' <= c <= 'v' || 'T' <= c <= 'V')) || (key == 9 && ('w' <= c <= 'z' || 'W' <= c <= 'Z'))
  {
    var s := Letters(key);
    if 2 <= key <= 9 {
      if key == 7 || key == 9 {
        InEight(c, s);
      } else {
        InSix(c, s);
      }
    }
  }

  lemma KeyRanges(c: char)
    ensures KeyByChar(c) == 2 <==> 'a' <= c <= 'c' || 'A' <= c <= 'C'
    ensures KeyByChar(c) == 3 <==> 'd' <= c <= 'f' || 'D' <= c <= 'F'
    ensures KeyByChar(c) == 4 <==> 'g' <= c <= 'i' || 'G' <= c <= 'I'
    ensures KeyByChar(c) == 5 <==> 'j' <= c <= 'l' || 'J' <= c <= 'L'
    ensures KeyByChar(c) == 6 <==> 'm' <= c <= 'o' || 'M' <= c <= 'O'
    ensures KeyByChar(c) == 7 <==> 'p' <= c <= 's' || 'P' <= c <= 'S'
    ensures KeyByChar(c) == 8 <==> 't' <= c <= 'v' || 'T' <= c <= 'V'
    ensures KeyByChar(c) == 9 <==> 'w' <= c <= 'z' || 'W' <= c <= 'Z'
    ensures KeyByChar(c) == -1 || 2 <= KeyByChar(c) <= 9
  {}

  /** What is typed for a word: the digit of each letter's key. */
  function Typed(word: string): string {
    seq(|word|, i requires 0 <= i < |word| => if 2 <= KeyByChar(word[i]) <= 9 then ('0' as int + KeyByChar(word[i])) as char else '0')
  }

  /** A word is found under the digits that are typed for it. */
  lemma TypedSpells(word: string)
    requires Spelling(word).Some?
    ensures Sequence(Typed(word)) == Spelling(word)
  {
    TypedNumbers(word);
    hide Keys, Numbers, KeyByChar;
  }

  lemma {:induction false} TypedNumbers(word: string)
    requires Keys(word).Some?
    ensures Numbers(Typed(word)) == Keys(word)
    decreases |word|
  {
    if word != "" {
      var front, c := word[..|word| - 1], word[|word| - 1];
      TypedNumbers(front);
      var t := Typed(word);
      assert t[..|t| - 1] == Typed(front);
      KeyBears(c);
      hide KeyByChar;
    }
  }

  /** So every added word that can be spelled is among the words of what is typed for it. */
  lemma TypedFinds(added: seq<string>, word: string)
    requires word in added && Spelling(word).Some?
    ensures Sequence(Typed(word)).Some? && word in WordsFor(added, Sequence(Typed(word)).value)
  {
    TypedSpells(word);
    WordsForMeaning(added, Spelling(word).value);
    hide Spelling, Sequence, WordsFor;
  }

  // ----- the words of one key -----

  /** `s9_key_t`: an array of words that ends with empty entries, when it has any. */
  datatype Key = Key(key: int, words: seq<Option<string>>, nWords: nat, maxWords: nat)
  {
    /** Eight entries at first; after growth, when a ninth word arrives, one more than the maximum, for the
        terminator. */
    predicate Valid() {
      8 <= maxWords && nWords <= maxWords && |words| == (if maxWords == 8 then 8 else maxWords + 1) &&
      (maxWords > 8 ==> nWords > 8) &&
      forall i :: 0 <= i < |words| ==> (words[i].Some? <==> i < nWords)
    }

    function List(): (s: seq<string>)
      requires Valid()
      ensures |s| == nWords
    {
      seq(nWords, i requires 0 <= i < nWords => words[i].value)
    }

    /** There is an empty entry to end the iteration. */
    predicate Terminated() {
      exists i :: 0 <= i < |words| && words[i] == None
    }
  }

  function NewKey(key: int): Key {
    Key(key, seq(8, _ => None), 0, 8)
  }

  function Appended(s: seq<string>, word: string): seq<string> {
    if word in s then s else s + [word]
  }

  /** `key_add_word`: a word that is there already is not added again; a full array doubles. */
  method KeyAddWord(key: Key, word: string) returns (key': Key)
    requires key.Valid()
    ensures key'.Valid() && key'.key == key.key && key'.List() == Appended(key.List(), word)
  {
    for i := 0 to key.nWords
      invariant word !in key.List()[..i]
    {
      if key.words[i].value == word {
        assert key.List()[i] == word;
        return key;
      }
      assert key.List()[..i + 1] == key.List()[..i] + [key.List()[i]];
    }
    assert key.List()[..key.nWords] == key.List();
    var words, maxWords := key.words, key.maxWords;
    if key.nWords + 1 > key.maxWords {
      maxWords := maxWords * 2;
      words := words[..key.nWords] + seq(maxWords / 2 + 1, _ => None);
    }
    key' := Key(key.key, words[key.nWords := Some(word)], key.nWords + 1, maxWords);
    assert key'.List() == key.List() + [word];
  }

  // ----- the index -----

  /** `wordlen_lookup_key`. */
  function Lookup(keys: seq<Key>, key: int): (r: int)
    ensures -1 <= r < |keys| && (r >= 0 ==> keys[r].key == key)
    ensures forall i :: 0 <= i < (if r < 0 then |keys| else r) ==> keys[i].key != key
  {
    if keys == [] then -1
    else if keys[0].key == key then 0
    else
      var r := Lookup(keys[1..], key);
      if r < 0 then -1 else r + 1
  }

  method LookupKey(keys: seq<Key>, key: int) returns (r: int)
    ensures r == Lookup(keys, key)
  {
    for i := 0 to |keys|
      invariant forall k :: 0 <= k < i ==> keys[k].key != key
    {
      if keys[i].key == key {
        LookupIs(keys, key, i);
        return i;
      }
    }
    LookupIs(keys, key, -1);
    return -1;
  }

  lemma LookupIs(keys: seq<Key>, key: int, r: int)
    requires -1 <= r < |keys| && (r >= 0 ==> keys[r].key == key)
    requires forall i :: 0 <= i < (if r < 0 then |keys| else r) ==> keys[i].key != key
    ensures Lookup(keys, key) == r
  {
    var l := Lookup(keys, key);
    hide Lookup;
  }

  /** The added words that a sequence spells, each once, in the order they were first added. */
  function WordsFor(added: seq<string>, d: seq<Digit>): seq<string> {
    if added == [] then []
    else
      var before, word := WordsFor(added[..|added| - 1], d), added[|added| - 1];
      if Spelling(word) == Some(d) then Appended(before, word) else before
  }

  /** The keys of one length list exactly the added words of every sequence of that length. */
  ghost predicate Indexes(keys: seq<Key>, added: seq<string>, n: nat) {
    forall d: seq<Digit> :: |d| == n ==> IndexesAt(keys, added, d)
  }

  ghost predicate IndexesAt(keys: seq<Key>, added: seq<string>, d: seq<Digit>) {
    var i := Lookup(keys, Packed(d));
    if i < 0 then WordsFor(added, d) == [] else keys[i].Valid() && keys[i].List() == WordsFor(added, d)
  }

  lemma WordsForNext(added: seq<string>, word: string, d: seq<Digit>)
    ensures WordsFor(added + [word], d) ==
            if Spelling(word) == Some(d) then Appended(WordsFor(added, d), word) else WordsFor(added, d)
  {
    assert (added + [word])[..|added|] == added;
    hide Spelling, Appended;
  }

  lemma SpellingLength(word: string)
    ensures Spelling(word).Some? ==> |Spelling(word).value| == |word| <= MAX_LENGTH
  {}

  /** `wordlen_add_word`: a word that cannot be spelled is ignored. */
  method WordlenAddWord(keys: seq<Key>, word: string, ghost added: seq<string>) returns (keys': seq<Key>)
    requires Indexes(keys, added, |word|)
    ensures Indexes(keys', added + [word], |word|)
  {
    hide Spelling, Packed, Lookup, WordsFor;
    var key := GetKey(word);
    if key < 0 {
      NotSpelled(keys, added, word);
      return keys;
    }
    ghost var d := Spelling(word).value;
    SpellingLength(word);
    keys' := keys;
    var idx := LookupKey(keys, key);
    assert IndexesAt(keys, added, d);
    if idx < 0 {
      idx := |keys'|;
      keys' := keys' + [NewKey(key)];
      NewKeyEmpty(key);
    }
    var entry := KeyAddWord(keys'[idx], word);
    AddedTo(keys, keys', idx, entry, added, word, d);
    keys' := keys'[idx := entry];
  }

  lemma NewKeyEmpty(key: int)
    ensures NewKey(key).Valid() && NewKey(key).List() == []
  {}

  lemma NotSpelled(keys: seq<Key>, added: seq<string>, word: string)
    requires Indexes(keys, added, |word|) && Spelling(word) == None
    ensures Indexes(keys, added + [word], |word|)
  {
    hide Spelling, WordsFor, Lookup, Packed;
    forall d: seq<Digit> | |d| == |word| ensures IndexesAt(keys, added + [word], d) {
      assert IndexesAt(keys, added, d);
      WordsForNext(added, word, d);
    }
  }

  /** The entry of the word's sequence changes; those of other sequences do not. */
  lemma AddedTo(keys: seq<Key>, grown: seq<Key>, idx: nat, entry: Key, added: seq<string>, word: string, d: seq<Digit>)
    requires Indexes(keys, added, |word|) && Spelling(word) == Some(d) && |d| == |word|
    requires if Lookup(keys, Packed(d)) < 0 then idx == |keys| && grown == keys + [NewKey(Packed(d))]
             else idx == Lookup(keys, Packed(d)) && grown == keys
    requires entry.Valid() && entry.key == Packed(d) && entry.List() == Appended(WordsFor(added, d), word)
    ensures idx < |grown| && Indexes(grown[idx := entry], added + [word], |word|)
  {
    hide Spelling, WordsFor, Packed, Appended, Key.Valid, Key.List;
    var after := grown[idx := entry];
    forall e: seq<Digit> | |e| == |word| ensures IndexesAt(after, added + [word], e) {
      assert IndexesAt(keys, added, e);
      WordsForNext(added, word, e);
      hide Lookup;
      if e == d {
        LookupIs(after, Packed(d), idx);
      } else {
        OtherKey(d, e);
        LookupIs(after, Packed(e), Lookup(keys, Packed(e)));
      }
    }
  }

  lemma OtherKey(d: seq<Digit>, e: seq<Digit>)
    requires |d| == |e| && d != e
    ensures Packed(d) != Packed(e)
  {
    if Packed(d) == Packed(e) {
      PackedInjective(d, e);
    }
  }

  class Index {
    /** `words_by_length`. */
    var wordsByLength: seq<seq<Key>>

    /** The words added so far. */
    ghost var added: seq<string>

    ghost predicate Valid()
      reads this
    {
      (forall n :: 0 <= n < |wordsByLength| ==> Indexes(wordsByLength[n], added, n)) &&
      forall w :: w in added ==> |w| < |wordsByLength|
    }

    /** `s9_init`. */
    constructor ()
      ensures Valid() && added == [] && wordsByLength == []
    {
      wordsByLength := [];
      added := [];
    }

    /** `s9_add_word`. */
    method AddWord(word: string)
      requires Valid()
      modifies this
      ensures Valid() && added == old(added) + [word]
      ensures |wordsByLength| == if |word| >= |old(wordsByLength)| then |word| + 1 else |old(wordsByLength)|
    {
      hide Indexes;
      var n := |word|;
      while |wordsByLength| < n + 1
        invariant Valid() && added == old(added)
        invariant |wordsByLength| >= |old(wordsByLength)|
        invariant |wordsByLength| <= n + 1 || wordsByLength == old(wordsByLength)
        decreases n + 1 - |wordsByLength|
      {
        EmptyIndexes(added, |wordsByLength|);
        wordsByLength := wordsByLength + [[]];
      }
      var keys := WordlenAddWord(wordsByLength[n], word, added);
      forall k | 0 <= k < |wordsByLength| && k != n ensures Indexes(wordsByLength[k], added + [word], k) {
        OtherLength(wordsByLength[k], added, word, k);
      }
      wordsByLength := wordsByLength[n := keys];
      added := added + [word];
    }

    /** `s9_lookup`, for a sequence shorter than the longest added word plus one: the entry, if any word was
        added that the sequence spells. */
    method LookupSequence(sequence: string) returns (r: Option<Key>)
      requires Valid() && (Sequence(sequence).Some? ==> |sequence| < |wordsByLength|)
      ensures Sequence(sequence) == None ==> r == None
      ensures Sequence(sequence).Some? ==>
                if WordsFor(added, Sequence(sequence).value) == [] then r == None || (r.value.Valid() && r.value.List() == [])
                else r.Some? && r.value.Valid() && r.value.List() == WordsFor(added, Sequence(sequence).value)
    {
      hide Indexes, WordsFor, Packed, Sequence;
      var key := GetKeyBySequence(sequence);
      if key < 0 {
        return None;
      }
      ghost var d := Sequence(sequence).value;
      SequenceLength(sequence);
      var keys := wordsByLength[|sequence|];
      IndexedAt(keys, added, d);
      var idx := LookupKey(keys, key);
      if idx < 0 {
        return None;
      }
      return Some(keys[idx]);
    }

    /** Lookup and iteration: `s9_lookup` gives the first word, `s9_lookup_next` the one after, until the
        empty entry that ends the array.  `None` when the iteration reads past the array: exactly when the
        sequence spells eight of the added words. */
    method Words(sequence: string) returns (words: Option<seq<string>>)
      requires Valid() && (Sequence(sequence).Some? ==> |sequence| < |wordsByLength|)
      ensures Sequence(sequence) == None ==> words == Some([])
      ensures Sequence(sequence).Some? ==>
                var all := WordsFor(added, Sequence(sequence).value);
                words == if |all| == 8 then None else Some(all)
    {
      hide Indexes, WordsFor, Sequence;
      var r := LookupSequence(sequence);
      if r == None {
        return Some([]);
      }
      var entry := r.value;
      TerminatedIff(entry);
      var it, found := 0, [];
      while it < |entry.words| && entry.words[it] != None
        invariant 0 <= it <= entry.nWords <= |entry.words| && found == entry.List()[..it]
        decreases entry.nWords - it
      {
        found := found + [entry.words[it].value];
        it := it + 1;
      }
      assert entry.List()[..entry.nWords] == entry.List();
      if it == |entry.words| {
        return None;
      }
      return Some(found);
    }
  }

  /** An array of words lacks the empty entry exactly when it holds eight words: it starts with eight entries
      and makes room for the empty one when it grows. */
  lemma TerminatedIff(k: Key)
    requires k.Valid()
    ensures k.Terminated() <==> k.nWords < |k.words|
    ensures k.Terminated() <==> |k.List()| != 8
  {
    if k.nWords < |k.words| {
      assert k.words[k.nWords] == None;
    }
  }

  /** For an index of the words added: the entry of a sequence lacks the empty entry exactly when the sequence
      spells eight of them. */
  lemma EntryTerminatedIff(keys: seq<Key>, added: seq<string>, d: seq<Digit>)
    requires Indexes(keys, added, |d|) && WordsFor(added, d) != []
    ensures var i := Lookup(keys, Packed(d));
            i >= 0 && (keys[i].Terminated() <==> |WordsFor(added, d)| != 8)
  {
    hide WordsFor, Packed, Lookup;
    IndexedAt(keys, added, d);
    TerminatedIff(keys[Lookup(keys, Packed(d))]);
  }

  const EIGHT: seq<string> := ["aa", "ab", "ac", "ba", "bb", "bc", "ca", "cb"]

  /** Eight words of one spelling: every index of them has an entry without end. */
  lemma EightWordsUnterminated(keys: seq<Key>)
    requires Indexes(keys, EIGHT, 2)
    ensures WordsFor(EIGHT, [0, 0]) == EIGHT
    ensures var i := Lookup(keys, Packed([0, 0])); i >= 0 && !keys[i].Terminated()
  {
    assert EIGHT[..|EIGHT|] == EIGHT;
    hide Indexes, Packed;
    EightWordsFor(8);
    EntryTerminatedIff(keys, EIGHT, [0, 0]);
  }

  lemma {:induction false} EightWordsFor(k: nat)
    requires k <= 8
    ensures WordsFor(EIGHT[..k], [0, 0]) == EIGHT[..k]
  {
    hide *;
    if k > 0 {
      EightWordsFor(k - 1);
      EightNext(k);
      WordsForNext(EIGHT[..k - 1], EIGHT[k - 1], [0, 0]);
      TwoLetters(EIGHT[k - 1]);
      AppendedNew(EIGHT[..k - 1], EIGHT[k - 1]);
    } else {
      NoneOf(EIGHT);
    }
  }

  lemma EightNext(k: nat)
    requires 0 < k <= 8
    ensures |EIGHT| == 8 && EIGHT[..k] == EIGHT[..k - 1] + [EIGHT[k - 1]] && EIGHT[k - 1] !in EIGHT[..k - 1]
    ensures var w := EIGHT[k - 1]; |w| == 2 && 'a' <= w[0] <= 'c' && 'a' <= w[1] <= 'c'
  {
    forall i | 0 <= i < k - 1 ensures EIGHT[i] != EIGHT[k - 1] {
      assert EIGHT[i][0] != EIGHT[k - 1][0] || EIGHT[i][1] != EIGHT[k - 1][1];
    }
  }

  lemma AppendedNew(s: seq<string>, word: string)
    requires word !in s
    ensures Appended(s, word) == s + [word]
  {}

  lemma NoneOf(s: seq<string>)
    ensures s[..0] == [] && WordsFor(s[..0], [0, 0]) == []
  {}

  lemma TwoLetters(w: string)
    requires |w| == 2 && 'a' <= w[0] <= 'c' && 'a' <= w[1] <= 'c'
    ensures Spelling(w) == Some([0, 0])
  {
    assert w[..0] == "" && w[..2] == w && KeyByChar(w[0]) == KeyByChar(w[1]) == 2;
    var zero: Digit, none: seq<Digit> := 0, [];
    assert Keys(w[..0]) == Some(none) && none + [zero] == [zero];
    NextKeys(w, 0);
    assert Keys(w[..1]) == Some([zero]);
    NextKeys(w, 1);
    assert [zero] + [zero] == [zero, zero];
  }

  lemma EmptyIndexes(added: seq<string>, n: nat)
    requires forall w :: w in added ==> |w| < n
    ensures Indexes([], added, n)
  {
    hide WordsFor, Packed;
    forall d: seq<Digit> | |d| == n ensures IndexesAt([], added, d) {
      NoneSpelled(added, d);
    }
  }

  lemma {:induction false} NoneSpelled(added: seq<string>, d: seq<Digit>)
    requires forall w :: w in added ==> |w| < |d|
    ensures WordsFor(added, d) == []
    decreases |added|
  {
    hide Spelling;
    if added != [] {
      var word := added[|added| - 1];
      assert word in added;
      SpellingLength(word);
      NoneSpelled(added[..|added| - 1], d);
    }
  }

  lemma OtherLength(keys: seq<Key>, added: seq<string>, word: string, n: nat)
    requires Indexes(keys, added, n) && n != |word|
    ensures Indexes(keys, added + [word], n)
  {
    hide Spelling, WordsFor, Lookup, Packed;
    SpellingLength(word);
    forall d: seq<Digit> | |d| == n ensures IndexesAt(keys, added + [word], d) {
      assert IndexesAt(keys, added, d);
      WordsForNext(added, word, d);
    }
  }

  lemma SequenceLength(s: string)
    ensures Sequence(s).Some? ==> |Sequence(s).value| == |s|
  {}

  lemma IndexedAt(keys: seq<Key>, added: seq<string>, d: seq<Digit>)
    requires Indexes(keys, added, |d|)
    ensures IndexesAt(keys, added, d)
  {
    hide IndexesAt;
  }

  // ----- what is listed -----

  /** Exactly the added words that the sequence spells, without repetition. */
  lemma {:induction false} WordsForMeaning(added: seq<string>, d: seq<Digit>)
    ensures forall w :: w in WordsFor(added, d) <==> w in added && Spelling(w) == Some(d)
    ensures forall i, j :: 0 <= i < j < |WordsFor(added, d)| ==> WordsFor(added, d)[i] != WordsFor(added, d)[j]
    decreases |added|
  {
    hide Spelling;
    if added != [] {
      var front, word := added[..|added| - 1], added[|added| - 1];
      WordsForMeaning(front, d);
      WordsForNext(front, word, d);
      assert front + [word] == added;
    }
  }

  /** The order of first addition: a listed word keeps its place when more words are added. */
  lemma {:induction false} WordsForPrefix(added: seq<string>, more: seq<string>, d: seq<Digit>)
    ensures WordsFor(added, d) <= WordsFor(added + more, d)
    decreases |more|
  {
    hide Spelling, WordsFor;
    if more == [] {
      assert added + more == added;
    } else {
      var front, word := more[..|more| - 1], more[|more| - 1];
      WordsForPrefix(added, front, d);
      WordsForNext(added + front, word, d);
      assert added + more == (added + front) + [word];
    }
  }
}
