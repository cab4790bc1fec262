/**
 `nanoid`: a todo identifier of `size` symbols drawn from a 64-symbol URL-safe
 alphabet. The random source is passed in: `draws[j]` is the value of
 `(Math.random() * 64) | 0` for the j-th symbol, so it lies in [0, 64).
 */
module NanoId {

  /* "useandom-26T198340PX75pxJACKVERYMINDBUSHWOLF_GQZbfghjklqvwyzrict", in
     four pieces of 16, which lets the verifier check it symbol by symbol. */
  const UrlAlphabet: string := "useandom-26T1983" + "40PX75pxJACKVERY" + "MINDBUSHWOLF_GQZ" + "bfghjklqvwyzrict"

  /* The default identifier length. */
  const DefaultSize: nat := 21

  /* The symbols `A-Za-z0-9_-`. */
  predicate UrlSafe(c: char)
  {
    ('A' <= c <= 'Z') || ('a' <= c <= 'z') || ('0' <= c <= '9') || c == '_' || c == '-'
  }

  /** The alphabet has 64 symbols, every one URL-safe. */
  lemma AlphabetIsUrlSafe()
    ensures |UrlAlphabet| == 64
    ensures forall j :: 0 <= j < |UrlAlphabet| ==> UrlSafe(UrlAlphabet[j])
  {
  }

  /* A valid run of draws: each one an index into the alphabet. */
  predicate ValidDraws(draws: seq<int>)
  {
    forall j :: 0 <= j < |draws| ==> 0 <= draws[j] < 64
  }

  /* The identifier a run of draws spells. */
  function Spelled(draws: seq<int>): string
    requires ValidDraws(draws)
  {
    seq(|draws|, j requires 0 <= j < |draws| => UrlAlphabet[draws[j]])
  }

  /** `nanoid(size)`: one symbol per draw, in draw order, every symbol
      URL-safe. */
  method NanoId(size: nat, draws: seq<int>) returns (id: string)
    requires |draws| == size && ValidDraws(draws)
    ensures |id| == size
    ensures forall j :: 0 <= j < size ==> id[j] == UrlAlphabet[draws[j]] && UrlSafe(id[j])
    ensures id == Spelled(draws)
  {
    AlphabetIsUrlSafe();
    id := "";
    var i := size;
    while i > 0
      invariant 0 <= i <= size
      invariant |id| == size - i
      invariant forall j :: 0 <= j < size - i ==> id[j] == UrlAlphabet[draws[j]]
    {
      i := i - 1;
      id := id + [UrlAlphabet[draws[size - 1 - i]]];
    }
  }
}
