/** The short-key generator: a fixed 62-symbol alphabet and a generator that
    draws a 6-character key from it. The random number source is not part of
    the model: the caller supplies the six draws, each already reduced to an
    index below the alphabet's length, as `rand.Intn(len(base62Chars))` does. */
module Base62 {

  /** `base62Chars`, written as its three runs so that the verifier can index
      it; AlphabetIsSourceLiteral shows it is the source's literal. */
  const Alphabet: string := "abcdefghijklmnopqrstuvwxyz" + "ABCDEFGHIJKLMNOPQRSTUVWXYZ" + "0123456789"

  /** The length of every generated key (the buffer `make([]byte, 6)`). */
  const KeyLength: nat := 6

  predicate IsLower(c: char) { 'a' <= c <= 'z' }
  predicate IsUpper(c: char) { 'A' <= c <= 'Z' }
  predicate IsDigit(c: char) { '0' <= c <= '9' }

  /** The characters the alphabet is meant to hold: ASCII letters and digits. */
  predicate IsAlnum(c: char) { IsLower(c) || IsUpper(c) || IsDigit(c) }

  /** A valid draw sequence: one index per key character, each below the
      alphabet's length, which is what `rand.Intn(62)` yields. */
  predicate IsDraws(draws: seq<nat>)
  {
    |draws| == KeyLength && forall i :: 0 <= i < |draws| ==> draws[i] < |Alphabet|
  }

  /** A well-shaped generated key: six characters, all from the alphabet. */
  predicate IsShortKey(key: string)
  {
    |key| == KeyLength && forall i :: 0 <= i < |key| ==> key[i] in Alphabet
  }

  /** The position of a letter or digit in the layout lowercase, uppercase, digits. */
  function IndexOf(c: char): (i: nat)
    requires IsAlnum(c)
    ensures i < 62
    ensures i < 26 <==> IsLower(c)
    ensures 26 <= i < 52 <==> IsUpper(c)
    ensures 52 <= i <==> IsDigit(c)
  {
    if IsLower(c) then c as int - 'a' as int
    else if IsUpper(c) then c as int - 'A' as int + 26
    else c as int - '0' as int + 52
  }

  /** The alphabet is character for character the source's single literal. */
  lemma AlphabetIsSourceLiteral()
    ensures Alphabet == "abcdefghijklmnopqrstuvwxyzABCDEFGHIJKLMNOPQRSTUVWXYZ0123456789"
  {
  }

  /** The alphabet has 62 characters, laid out as the 26 lowercase letters,
      the 26 uppercase letters and the 10 digits, each run in order: the
      character at index i is the one whose position in that layout is i. */
  lemma AlphabetLayout()
    ensures |Alphabet| == 62
    ensures forall i :: 0 <= i < 26 ==> IsLower(Alphabet[i])
    ensures forall i :: 26 <= i < 52 ==> IsUpper(Alphabet[i])
    ensures forall i :: 52 <= i < 62 ==> IsDigit(Alphabet[i])
    ensures forall i :: 0 <= i < 62 ==> IsAlnum(Alphabet[i]) && IndexOf(Alphabet[i]) == i
  {
  }

  /** The 62 characters are pairwise distinct, so each index names its own symbol. */
  lemma AlphabetDistinct()
    ensures forall i, j :: 0 <= i < j < |Alphabet| ==> Alphabet[i] != Alphabet[j]
  {
    AlphabetLayout();
  }

  /** A character is in the alphabet exactly when it is an ASCII letter or
      digit, and then it sits at index IndexOf(c). */
  lemma AlphabetMembership(c: char)
    ensures c in Alphabet <==> IsAlnum(c)
    ensures IsAlnum(c) ==> Alphabet[IndexOf(c)] == c
  {
    AlphabetLayout();
    if IsAlnum(c) {
      var i := IndexOf(c);
      assert IndexOf(Alphabet[i]) == i;
      assert Alphabet[i] == c;
    }
  }

  /** The key that a draw sequence selects: character i is the alphabet
      symbol at draw i. */
  function KeyOf(draws: seq<nat>): (key: string)
    requires forall i :: 0 <= i < |draws| ==> draws[i] < |Alphabet|
    ensures |key| == |draws|
    ensures forall i :: 0 <= i < |key| ==> key[i] == Alphabet[draws[i]]
  {
    if draws == [] then [] else [Alphabet[draws[0]]] + KeyOf(draws[1..])
  }

  /** The draws that select a given key: the inverse of KeyOf. */
  function DrawsOf(key: string): (draws: seq<nat>)
    requires forall i :: 0 <= i < |key| ==> IsAlnum(key[i])
    ensures |draws| == |key|
    ensures forall i :: 0 <= i < |draws| ==> draws[i] == IndexOf(key[i]) < |Alphabet|
  {
    if key == [] then [] else [IndexOf(key[0])] + DrawsOf(key[1..])
  }

  /** Every key over the alphabet is selected by exactly the draws DrawsOf
      gives: so six uniform independent draws give every 6-character
      base62 key with the same probability. */
  lemma {:induction false} KeyOfDrawsOf(key: string)
    requires forall i :: 0 <= i < |key| ==> key[i] in Alphabet
    ensures forall i :: 0 <= i < |key| ==> IsAlnum(key[i])
    ensures KeyOf(DrawsOf(key)) == key
  {
    forall i | 0 <= i < |key| ensures IsAlnum(key[i]) && Alphabet[IndexOf(key[i])] == key[i] {
      AlphabetMembership(key[i]);
    }
  }

  /** Distinct draw sequences select distinct keys. */
  lemma {:induction false} DrawsOfKeyOf(draws: seq<nat>)
    requires forall i :: 0 <= i < |draws| ==> draws[i] < |Alphabet|
    ensures forall i :: 0 <= i < |draws| ==> IsAlnum(KeyOf(draws)[i])
    ensures DrawsOf(KeyOf(draws)) == draws
  {
    AlphabetLayout();
  }

  /** `generateShortKey`: fill a 6-character buffer, position by position,
      with the alphabet symbol at that position's draw. */
  method GenerateShortKey(draws: seq<nat>) returns (key: string)
    requires IsDraws(draws)
    ensures key == KeyOf(draws)
    ensures IsShortKey(key)
  {
    var buffer := new char[KeyLength];
    for i := 0 to buffer.Length
      invariant forall j :: 0 <= j < i ==> buffer[j] == Alphabet[draws[j]]
    {
      buffer[i] := Alphabet[draws[i]];
    }
    key := buffer[..];
  }
}
