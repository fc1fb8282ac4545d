/**
 * `RandomString`: `length` characters drawn from an alphabet. The draws are
 * an input: each is the index the random source returned, or `None` where
 * the source failed, in which case the character is `'a'`.
 */
module Random {
  import opened Common

  /** Every successful draw indexes the alphabet. */
  predicate ValidDraws(draws: seq<Option<nat>>, alphabet: string) {
    forall i :: 0 <= i < |draws| && draws[i].Some? ==> draws[i].value < |alphabet|
  }

  function DrawChar(d: Option<nat>, alphabet: string): char
    requires d.Some? ==> d.value < |alphabet|
  {
    if d.Some? then alphabet[d.value] else 'a'
  }

  function RandomString(length: nat, alphabet: string, draws: seq<Option<nat>>): (s: string)
    requires |draws| == length && ValidDraws(draws, alphabet)
    ensures |s| == length
    ensures forall i :: 0 <= i < |s| ==> s[i] in alphabet || s[i] == 'a'
    ensures forall i :: 0 <= i < |s| && draws[i].Some? ==> s[i] == alphabet[draws[i].value]
  {
    seq(length, i requires 0 <= i < length => DrawChar(draws[i], alphabet))
  }

  /** With an alphabet that contains `'a'`, the fallback never leaves the alphabet. */
  lemma RandomStringStaysInAlphabet(length: nat, alphabet: string, draws: seq<Option<nat>>)
    requires |draws| == length && ValidDraws(draws, alphabet)
    requires 'a' in alphabet
    ensures forall c :: c in RandomString(length, alphabet, draws) ==> c in alphabet
  {
  }
}
