/**
 * Move-to-front coding over the 256 extended ASCII symbols (MoveToFront.java).
 * Both directions keep an ordered alphabet; each input element is turned into
 * (or read from) a position in it, and the symbol at that position is moved to
 * the front. The functions Encoding and Decoding are the specification; the
 * methods Encode and Decode follow the Java loops over a mutable array.
 */
module MoveToFront {
  import opened Common

  /** The size of the alphabet, EXTENDED_ASCII in the Java code. */
  const EXTENDED_ASCII := 256

  /** The position of the first occurrence of c in alpha. */
  function IndexOf(alpha: seq<int>, c: int): (p: nat)
    requires c in alpha
    ensures p < |alpha| && alpha[p] == c && c !in alpha[..p]
  {
    if alpha[0] == c then
      0
    else
      var p := IndexOf(alpha[1..], c);
      assert alpha[..p + 1] == [alpha[0]] + alpha[1..][..p];
      p + 1
  }

  /**
   * alpha after its entry at p moves to the front: the entries before p
   * shift up by one, the entries after p stay where they are, and no symbol
   * is gained or lost.
   */
  function Promoted(alpha: seq<int>, p: int): (r: seq<int>)
    requires 0 <= p < |alpha|
    ensures |r| == |alpha| && multiset(r) == multiset(alpha)
  {
    assert alpha == alpha[..p] + [alpha[p]] + alpha[p + 1..];
    [alpha[p]] + alpha[..p] + alpha[p + 1..]
  }

  /** The entry at k after the symbol at p moves to the front. */
  lemma PromotedAt(alpha: seq<int>, p: int, k: int)
    requires 0 <= p < |alpha| && 0 <= k < |alpha|
    ensures Promoted(alpha, p)[k] == if k == 0 then alpha[p] else if k <= p then alpha[k - 1] else alpha[k]
  {
  }

  /**
   * Only entries 0..p change: the symbol at p comes first and the entries
   * before it move up by one.
   */
  lemma PromotedEntries(alpha: seq<int>, p: int)
    requires 0 <= p < |alpha|
    ensures Promoted(alpha, p)[0] == alpha[p]
    ensures forall k :: 0 <= k < p ==> Promoted(alpha, p)[k + 1] == alpha[k]
    ensures forall k :: p < k < |alpha| ==> Promoted(alpha, p)[k] == alpha[k]
  {
  }

  /** The codes move-to-front encoding emits for s, starting from the alphabet alpha. */
  function Encoding(alpha: seq<int>, s: seq<int>): (r: seq<int>)
    requires IsPermutation(alpha, EXTENDED_ASCII) && AllBytes(s)
    ensures |r| == |s| && AllBytes(r)
    decreases |s|
  {
    if s == [] then
      []
    else
      PermutationLength(alpha, EXTENDED_ASCII);
      PermutationHas(alpha, EXTENDED_ASCII, s[0]);
      var p := IndexOf(alpha, s[0]);
      [p] + Encoding(Promoted(alpha, p), s[1..])
  }

  /** The symbols move-to-front decoding emits for codes, starting from the alphabet alpha. */
  function Decoding(alpha: seq<int>, codes: seq<int>): (r: seq<int>)
    requires |alpha| == EXTENDED_ASCII && AllBytes(codes)
    ensures |r| == |codes|
    decreases |codes|
  {
    if codes == [] then
      []
    else
      var p := codes[0];
      [alpha[p]] + Decoding(Promoted(alpha, p), codes[1..])
  }

  /** Decoding the symbols of a permutation of the bytes yields bytes. */
  lemma {:induction false} DecodingBytes(alpha: seq<int>, codes: seq<int>)
    requires |alpha| == EXTENDED_ASCII && IsPermutation(alpha, EXTENDED_ASCII) && AllBytes(codes)
    ensures AllBytes(Decoding(alpha, codes))
    decreases |codes|
  {
    if codes != [] {
      PermutationRange(alpha, EXTENDED_ASCII);
      DecodingBytes(Promoted(alpha, codes[0]), codes[1..]);
    }
  }

  /** Round trip: decoding the codes of s from the same alphabet gives s back. */
  lemma {:induction false} DecodeEncode(alpha: seq<int>, s: seq<int>)
    requires |alpha| == EXTENDED_ASCII && IsPermutation(alpha, EXTENDED_ASCII) && AllBytes(s)
    ensures Decoding(alpha, Encoding(alpha, s)) == s
    decreases |s|
  {
    if s != [] {
      PermutationLength(alpha, EXTENDED_ASCII);
      PermutationHas(alpha, EXTENDED_ASCII, s[0]);
      var p := IndexOf(alpha, s[0]);
      var e := Encoding(Promoted(alpha, p), s[1..]);
      DecodeEncode(Promoted(alpha, p), s[1..]);
      assert Encoding(alpha, s) == [p] + e;
      assert ([p] + e)[0] == p && ([p] + e)[1..] == e;
      assert s == [s[0]] + s[1..];
    }
  }

  /** Round trip the other way: every byte sequence is the code of its decoding. */
  lemma {:induction false} EncodeDecode(alpha: seq<int>, codes: seq<int>)
    requires |alpha| == EXTENDED_ASCII && IsPermutation(alpha, EXTENDED_ASCII) && AllBytes(codes)
    ensures AllBytes(Decoding(alpha, codes))
    ensures Encoding(alpha, Decoding(alpha, codes)) == codes
    decreases |codes|
  {
    DecodingBytes(alpha, codes);
    if codes != [] {
      PermutationLength(alpha, EXTENDED_ASCII);
      var p := codes[0];
      var s := Decoding(alpha, codes);
      IndexOfDistinct(alpha, p);
      EncodeDecode(Promoted(alpha, p), codes[1..]);
      assert s[1..] == Decoding(Promoted(alpha, p), codes[1..]);
    }
  }

  /** In a permutation, the symbol at p is found at p. */
  lemma IndexOfDistinct(alpha: seq<int>, p: int)
    requires IsPermutation(alpha, EXTENDED_ASCII) && 0 <= p < |alpha|
    ensures IndexOf(alpha, alpha[p]) == p
  {
    var q := IndexOf(alpha, alpha[p]);
    if q < p {
      PermutationDistinct(alpha, EXTENDED_ASCII, q, p);
    }
  }

  /** initializeSymbols(): the i-th symbol of the alphabet is the i-th extended ASCII character. */
  method InitializeSymbols() returns (codes: array<int>)
    ensures fresh(codes) && codes[..] == Identity(EXTENDED_ASCII)
  {
    codes := new int[EXTENDED_ASCII];
    for symbol := 0 to EXTENDED_ASCII
      invariant forall k :: 0 <= k < symbol ==> codes[k] == k
    {
      codes[symbol] := symbol;
    }
  }

  /**
   * The arraycopy of symbols[0..position) one slot up, then symbol written to
   * the front. The copy reads all old entries before writing, as
   * System.arraycopy does for overlapping ranges.
   */
  method Promote(symbols: array<int>, position: int, symbol: int)
    requires 0 <= position < symbols.Length && symbols[position] == symbol
    modifies symbols
    ensures symbols[..] == Promoted(old(symbols[..]), position)
  {
    PromotedEntries(symbols[..], position);
    forall k | 0 <= k < position {
      symbols[k + 1] := symbols[k];
    }
    symbols[0] := symbol;
  }

  /**
   * The scan of encode(): steps through symbols until it reaches symbol,
   * which stops at the symbol's first occurrence.
   */
  method Scan(symbols: array<int>, symbol: int) returns (position: int)
    requires symbol in symbols[..]
    ensures 0 <= position < symbols.Length && symbols[position] == symbol
    ensures symbol !in symbols[..position]
  {
    ghost var found := IndexOf(symbols[..], symbol);
    position := 0;
    while symbols[position] != symbol
      invariant 0 <= position <= found && symbol !in symbols[..position]
      decreases found - position
    {
      assert symbols[..position + 1] == symbols[..position] + [symbols[position]];
      position := position + 1;
    }
  }

  /**
   * encode(), with the standard input given as input and the codes written
   * to standard output returned as output.
   */
  method Encode(input: seq<int>) returns (output: seq<int>)
    requires AllBytes(input)
    ensures output == Encoding(Identity(EXTENDED_ASCII), input)
  {
    var symbols := InitializeSymbols();
    assert input[0..] == input;
    output := [];
    for i := 0 to |input|
      invariant symbols.Length == EXTENDED_ASCII && IsPermutation(symbols[..], EXTENDED_ASCII)
      invariant output + Encoding(symbols[..], input[i..]) == Encoding(Identity(EXTENDED_ASCII), input)
    {
      var symbol := input[i];
      PermutationHas(symbols[..], EXTENDED_ASCII, symbol);
      var position := Scan(symbols, symbol);
      EncodeProgress(output, symbols[..], input, i, position);
      output := output + [position];
      Promote(symbols, position, symbol);
    }
  }

  /**
   * The loop of encode() keeps its invariant: the codes written so far
   * followed by the codes of the rest of the input, from the current
   * alphabet, are the codes of the whole input.
   */
  lemma EncodeProgress(output: seq<int>, alpha: seq<int>, input: seq<int>, i: int, p: int)
    requires IsPermutation(alpha, EXTENDED_ASCII) && AllBytes(input) && 0 <= i < |input|
    requires 0 <= p < |alpha| && alpha[p] == input[i] && input[i] !in alpha[..p]
    ensures IsPermutation(Promoted(alpha, p), EXTENDED_ASCII)
    ensures output + Encoding(alpha, input[i..]) == output + [p] + Encoding(Promoted(alpha, p), input[i + 1..])
  {
    var rest := EncodingStep(alpha, input, i, p);
    Associative(output, [p], rest);
  }

  /** One step of encoding: the code of input[i], then the rest from the promoted alphabet. */
  lemma EncodingStep(alpha: seq<int>, input: seq<int>, i: int, p: int) returns (rest: seq<int>)
    requires IsPermutation(alpha, EXTENDED_ASCII) && AllBytes(input) && 0 <= i < |input|
    requires 0 <= p < |alpha| && alpha[p] == input[i]
    ensures IsPermutation(Promoted(alpha, p), EXTENDED_ASCII)
    ensures rest == Encoding(Promoted(alpha, p), input[i + 1..])
    ensures Encoding(alpha, input[i..]) == [p] + rest
  {
    SliceCons(input, i);
    PermutationHas(alpha, EXTENDED_ASCII, input[i]);
    IndexOfDistinct(alpha, p);
    rest := Encoding(Promoted(alpha, p), input[i + 1..]);
  }

  /**
   * decode(), with the standard input given as input and the symbols written
   * to standard output returned as output.
   */
  method Decode(input: seq<int>) returns (output: seq<int>)
    requires AllBytes(input)
    ensures output == Decoding(Identity(EXTENDED_ASCII), input)
  {
    var symbols := InitializeSymbols();
    assert input[0..] == input;
    output := [];
    for i := 0 to |input|
      invariant symbols.Length == EXTENDED_ASCII
      invariant output + Decoding(symbols[..], input[i..]) == Decoding(Identity(EXTENDED_ASCII), input)
    {
      var position := input[i];
      var symbol := symbols[position];
      DecodeProgress(output, symbols[..], input, i);
      output := output + [symbol];
      Promote(symbols, position, symbol);
    }
  }

  /** The loop of decode() keeps its invariant, as EncodeProgress does for encode(). */
  lemma DecodeProgress(output: seq<int>, alpha: seq<int>, input: seq<int>, i: int)
    requires |alpha| == EXTENDED_ASCII && AllBytes(input) && 0 <= i < |input|
    ensures output + Decoding(alpha, input[i..]) == output + [alpha[input[i]]] + Decoding(Promoted(alpha, input[i]), input[i + 1..])
  {
    assert input[i..][1..] == input[i + 1..];
    Associative(output, [alpha[input[i]]], Decoding(Promoted(alpha, input[i]), input[i + 1..]));
  }

  /** Concatenation is associative. */
  lemma Associative(a: seq<int>, b: seq<int>, c: seq<int>)
    ensures a + b + c == a + (b + c)
  {
  }

  /** The message of the Java test. */
  const Abracadabra: seq<int> := [0x41, 0x42, 0x52, 0x41, 0x43, 0x41, 0x44, 0x41, 0x42, 0x52, 0x41, 0x21]

  /** Its move-to-front codes, as listed in the Java test. */
  const AbracadabraCodes: seq<int> := [0x41, 0x42, 0x52, 0x02, 0x44, 0x01, 0x45, 0x01, 0x04, 0x04, 0x02, 0x26]

  /** The two vectors entry by entry. */
  lemma AbracadabraBytes()
    ensures AllBytes(Abracadabra) && AllBytes(AbracadabraCodes)
    ensures |Abracadabra| == |AbracadabraCodes| == 12
    ensures Abracadabra[0] == 0x41 && Abracadabra[1] == 0x42 && Abracadabra[2] == 0x52 && Abracadabra[3] == 0x41 && Abracadabra[4] == 0x43 && Abracadabra[5] == 0x41 && Abracadabra[6] == 0x44 && Abracadabra[7] == 0x41 && Abracadabra[8] == 0x42 && Abracadabra[9] == 0x52 && Abracadabra[10] == 0x41 && Abracadabra[11] == 0x21
    ensures AbracadabraCodes[0] == 0x41 && AbracadabraCodes[1] == 0x42 && AbracadabraCodes[2] == 0x52 && AbracadabraCodes[3] == 0x2 && AbracadabraCodes[4] == 0x44 && AbracadabraCodes[5] == 0x1 && AbracadabraCodes[6] == 0x45 && AbracadabraCodes[7] == 0x1 && AbracadabraCodes[8] == 0x4 && AbracadabraCodes[9] == 0x4 && AbracadabraCodes[10] == 0x2 && AbracadabraCodes[11] == 0x26
  {
  }

  /**
   * Decoding the listed codes from the initial alphabet alpha (the identity,
   * passed in so that its 256 entries are not expanded) gives "ABRACADABRA!".
   */
  lemma AbracadabraDecodes(alpha: seq<int>)
    requires alpha == Identity(EXTENDED_ASCII)
    ensures Decoding(alpha, AbracadabraCodes) == Abracadabra
  {
    AbracadabraBytes();
    assert alpha[0x21] == 0x21 && alpha[0x41] == 0x41 && alpha[0x42] == 0x42 && alpha[0x43] == 0x43 && alpha[0x44] == 0x44 && alpha[0x52] == 0x52;
    AbracadabraFrom0(alpha);
    assert Abracadabra[0..] == Abracadabra && AbracadabraCodes[0..] == AbracadabraCodes;
  }

  /** Encoding "ABRACADABRA!" from the initial alphabet alpha gives the listed codes. */
  lemma AbracadabraEncodes(alpha: seq<int>)
    requires alpha == Identity(EXTENDED_ASCII)
    ensures Encoding(alpha, Abracadabra) == AbracadabraCodes
  {
    AbracadabraBytes();
    AbracadabraDecodes(alpha);
    EncodeDecode(alpha, AbracadabraCodes);
  }

  /** The listed codes decode to "ABRACADABRA!" from any alphabet that starts like the identity. */
  lemma AbracadabraFrom0(alpha: seq<int>)
    requires |alpha| == EXTENDED_ASCII
    requires alpha[0x21] == 0x21 && alpha[0x41] == 0x41 && alpha[0x42] == 0x42 && alpha[0x43] == 0x43 && alpha[0x44] == 0x44 && alpha[0x52] == 0x52
    ensures Decoding(alpha, AbracadabraCodes[0..]) == Abracadabra[0..]
  {
    var s, c := Abracadabra, AbracadabraCodes;
    AbracadabraBytes();
    var a0 := alpha;
    var a1 := Promoted(a0, 0x41);
    PromotedAt(a0, 0x41, 0x42);
    PromotedAt(a0, 0x41, 0x52);
    PromotedAt(a0, 0x41, 0x0);
    PromotedAt(a0, 0x41, 0x22);
    PromotedAt(a0, 0x41, 0x43);
    PromotedAt(a0, 0x41, 0x44);
    var a2 := Promoted(a1, 0x42);
    PromotedAt(a1, 0x42, 0x52);
    PromotedAt(a1, 0x42, 0x1);
    PromotedAt(a1, 0x42, 0x0);
    PromotedAt(a1, 0x42, 0x23);
    PromotedAt(a1, 0x42, 0x43);
    PromotedAt(a1, 0x42, 0x44);
    var a3 := Promoted(a2, 0x52);
    PromotedAt(a2, 0x52, 0x2);
    PromotedAt(a2, 0x52, 0x0);
    PromotedAt(a2, 0x52, 0x1);
    PromotedAt(a2, 0x52, 0x24);
    PromotedAt(a2, 0x52, 0x44);
    PromotedAt(a2, 0x52, 0x45);
    var a4 := Promoted(a3, 0x2);
    PromotedAt(a3, 0x2, 0x0);
    PromotedAt(a3, 0x2, 0x1);
    PromotedAt(a3, 0x2, 0x2);
    PromotedAt(a3, 0x2, 0x24);
    PromotedAt(a3, 0x2, 0x44);
    PromotedAt(a3, 0x2, 0x45);
    AbracadabraFrom4(a4);
    DecodingAt(a3, c, s, 3, 0x2);
    DecodingAt(a2, c, s, 2, 0x52);
    DecodingAt(a1, c, s, 1, 0x42);
    DecodingAt(a0, c, s, 0, 0x41);
  }

  /** The listed codes from position 4 on, decoded from the alphabet reached there. */
  lemma AbracadabraFrom4(alpha: seq<int>)
    requires |alpha| == EXTENDED_ASCII
    requires alpha[0x0] == 0x41 && alpha[0x1] == 0x52 && alpha[0x2] == 0x42 && alpha[0x24] == 0x21 && alpha[0x44] == 0x43 && alpha[0x45] == 0x44
    ensures Decoding(alpha, AbracadabraCodes[4..]) == Abracadabra[4..]
  {
    var s, c := Abracadabra, AbracadabraCodes;
    AbracadabraBytes();
    var a4 := alpha;
    var a5 := Promoted(a4, 0x44);
    PromotedAt(a4, 0x44, 0x1);
    PromotedAt(a4, 0x44, 0x45);
    PromotedAt(a4, 0x44, 0x2);
    PromotedAt(a4, 0x44, 0x3);
    PromotedAt(a4, 0x44, 0x25);
    var a6 := Promoted(a5, 0x1);
    PromotedAt(a5, 0x1, 0x45);
    PromotedAt(a5, 0x1, 0x0);
    PromotedAt(a5, 0x1, 0x2);
    PromotedAt(a5, 0x1, 0x3);
    PromotedAt(a5, 0x1, 0x25);
    var a7 := Promoted(a6, 0x45);
    PromotedAt(a6, 0x45, 0x1);
    PromotedAt(a6, 0x45, 0x3);
    PromotedAt(a6, 0x45, 0x4);
    PromotedAt(a6, 0x45, 0x26);
    var a8 := Promoted(a7, 0x1);
    PromotedAt(a7, 0x1, 0x0);
    PromotedAt(a7, 0x1, 0x3);
    PromotedAt(a7, 0x1, 0x4);
    PromotedAt(a7, 0x1, 0x26);
    AbracadabraFrom8(a8);
    DecodingAt(a7, c, s, 7, 0x1);
    DecodingAt(a6, c, s, 6, 0x45);
    DecodingAt(a5, c, s, 5, 0x1);
    DecodingAt(a4, c, s, 4, 0x44);
  }

  /** The listed codes from position 8 on, decoded from the alphabet reached there. */
  lemma AbracadabraFrom8(alpha: seq<int>)
    requires |alpha| == EXTENDED_ASCII
    requires alpha[0x0] == 0x41 && alpha[0x3] == 0x52 && alpha[0x4] == 0x42 && alpha[0x26] == 0x21
    ensures Decoding(alpha, AbracadabraCodes[8..]) == Abracadabra[8..]
  {
    var s, c := Abracadabra, AbracadabraCodes;
    AbracadabraBytes();
    var a8 := alpha;
    var a9 := Promoted(a8, 0x4);
    PromotedAt(a8, 0x4, 0x4);
    PromotedAt(a8, 0x4, 0x1);
    PromotedAt(a8, 0x4, 0x26);
    var a10 := Promoted(a9, 0x4);
    PromotedAt(a9, 0x4, 0x2);
    PromotedAt(a9, 0x4, 0x26);
    var a11 := Promoted(a10, 0x2);
    PromotedAt(a10, 0x2, 0x26);
    assert s[12..] == [] && c[12..] == [];
    DecodingAt(a11, c, s, 11, 0x26);
    DecodingAt(a10, c, s, 10, 0x2);
    DecodingAt(a9, c, s, 9, 0x4);
    DecodingAt(a8, c, s, 8, 0x4);
  }

  /** The step from position i of codes: it decodes to s[i] when the symbol sits at codes[i]. */
  lemma DecodingAt(alpha: seq<int>, codes: seq<int>, s: seq<int>, i: int, p: int)
    requires |alpha| == EXTENDED_ASCII && AllBytes(codes)
    requires 0 <= i < |codes| && i < |s| && codes[i] == p && alpha[p] == s[i]
    requires Decoding(Promoted(alpha, p), codes[i + 1..]) == s[i + 1..]
    ensures Decoding(alpha, codes[i..]) == s[i..]
  {
    SliceCons(codes, i);
    SliceCons(s, i);
  }

  /** The suffix from i is its first entry followed by the suffix from i + 1. */
  lemma SliceCons(s: seq<int>, i: int)
    requires 0 <= i < |s|
    ensures s[i..][0] == s[i] && s[i..][1..] == s[i + 1..] && s[i..] == [s[i]] + s[i + 1..]
  {
  }

}
