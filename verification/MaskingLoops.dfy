/** The masking loops over buffers, which may be one and the same, and any mixture of them. */
module MaskingLoops {
  import opened Masking

  /** data combined with a repeated pattern. */
  predicate Combined(out: seq<bv8>, data: seq<bv8>, p: bv64, period: nat)
    requires 0 < period <= 8
  {
    |out| == |data| && forall i :: 0 <= i < |data| ==> out[i] == Xor(data[i], ByteAt(p, i % period))
  }

  /** byte_mask. */
  method ByteMask(input: array<bv8>, output: array<bv8>, key: Key, keyOffset: nat)
    requires input.Length <= output.Length
    modifies output
    ensures output[..input.Length] == Masked(old(input[..]), key, keyOffset)
    ensures output[input.Length..] == old(output[input.Length..])
  {
    var keyIndex := keyOffset % 4;
    var n := input.Length;
    for i := 0 to n
      invariant keyIndex == (keyOffset + i) % 4
      invariant forall j :: 0 <= j < i ==> output[j] == Xor(old(input[j]), key[(keyOffset + j) % 4])
      invariant forall j :: i <= j < n ==> input[j] == old(input[j])
      invariant forall j :: n <= j < output.Length ==> output[j] == old(output[j])
    {
      output[i] := Xor(input[i], key[keyIndex]);
      keyIndex := keyIndex + 1;
      keyIndex := keyIndex % 4;
    }
  }

  /** One word of a buffer seen as words. */
  method StoreWord(output: array<bv8>, at: nat, w: bv64, size: WordSize)
    requires at + size <= output.Length
    modifies output
    ensures forall j :: at <= j < at + size ==> output[j] == Image(w, size)[j - at]
    ensures forall j :: 0 <= j < at || at + size <= j < output.Length ==> output[j] == old(output[j])
  {
    hide Xor, ByteAt;
    var s := Image(w, size);
    for k := 0 to size
      invariant forall j :: at <= j < at + k ==> output[j] == s[j - at]
      invariant forall j :: 0 <= j < at || at + k <= j < output.Length ==> output[j] == old(output[j])
    {
      output[at + k] := s[k];
    }
  }

  /** One word, read before it is written. */
  method MaskWord(input: array<bv8>, output: array<bv8>, at: nat, p: bv64, size: WordSize)
    requires at + size <= input.Length && at + size <= output.Length && at % size == 0
    modifies output
    ensures forall j :: at <= j < at + size ==> output[j] == Xor(old(input[j]), ByteAt(p, j % size))
    ensures forall j :: 0 <= j < at || at + size <= j < output.Length ==> output[j] == old(output[j])
  {
    hide Xor, ByteAt, Load, Image;
    var s := input[at..at + size];
    WordXor(s, p, at);
    StoreWord(output, at, Load(s) ^ p, size);
  }

  lemma WordXor(s: seq<bv8>, p: bv64, at: nat)
    requires (|s| == 4 || |s| == 8) && at % |s| == 0
    ensures forall j :: at <= j < at + |s| ==> Image(Load(s) ^ p, |s|)[j - at] == Xor(s[j - at], ByteAt(p, j % |s|))
  {
    hide Xor, ByteAt, Load;
    forall j | at <= j < at + |s|
      ensures Image(Load(s) ^ p, |s|)[j - at] == Xor(s[j - at], ByteAt(p, j % |s|))
    {
      ModWord(at, j - at, |s|);
      LoadedByte(s, j - at);
      XorByte(Load(s), p, j - at);
    }
  }

  /** The first n bytes are done and the others are as they were. */
  twostate predicate Done(input: array<bv8>, output: array<bv8>, n: nat, p: bv64, size: WordSize)
    requires n <= input.Length && n <= output.Length
    reads input, output
  {
    && (forall j :: 0 <= j < n ==> output[j] == Xor(old(input[j]), ByteAt(p, j % size)))
    && (forall j :: n <= j < input.Length ==> input[j] == old(input[j]))
    && (forall j :: n <= j < output.Length ==> output[j] == old(output[j]))
  }

  /** The whole words of a payload. */
  method MaskWords(input: array<bv8>, output: array<bv8>, n: nat, p: bv64, size: WordSize)
    requires n * size <= input.Length && n * size <= output.Length
    modifies output
    ensures Done(input, output, n * size, p, size)
  {
    hide Xor, ByteAt;
    var at := 0;
    for i := 0 to n
      invariant at == i * size && at % size == 0 && Done(input, output, at, p, size)
    {
      MaskWord(input, output, at, p, size);
      at := at + size;
    }
  }

  /** The loop behind the whole words. */
  method MaskRest(input: array<bv8>, output: array<bv8>, start: nat, length: nat, key: Key, ghost p: bv64, size: WordSize)
    requires start <= length <= input.Length && length <= output.Length && Represents(p, key, 0, size)
    modifies output
    ensures forall j :: start <= j < length ==> output[j] == Xor(old(input[j]), ByteAt(p, j % size))
    ensures forall j :: 0 <= j < start || length <= j < output.Length ==> output[j] == old(output[j])
  {
    hide Xor, ByteAt, Represents;
    for i := start to length
      invariant forall j :: start <= j < i ==> output[j] == Xor(old(input[j]), ByteAt(p, j % size))
      invariant forall j :: i <= j < input.Length ==> input[j] == old(input[j])
      invariant forall j :: 0 <= j < start || length <= j < output.Length ==> output[j] == old(output[j])
    {
      RepresentsAt(p, key, i, size);
      output[i] := Xor(input[i], key[i % 4]);
    }
  }

  lemma RepresentsAt(p: bv64, key: Key, i: nat, size: WordSize)
    requires Represents(p, key, 0, size)
    ensures ByteAt(p, i % size) == key[i % 4]
  {
    hide ByteAt;
    ModFour(0, i, size);
    assert ByteAt(p, i % size) == key[(0 + i % size) % 4];
  }

  /** word_mask_exact. */
  method WordMaskExact(input: array<bv8>, output: array<bv8>, length: nat, key: Key, size: WordSize)
    requires length <= input.Length && length <= output.Length
    modifies output
    ensures output[..length] == Masked(old(input[..length]), key, 0)
    ensures output[length..] == old(output[length..])
  {
    var preparedKey := PrepareMaskingKey(key, size);
    hide Xor, ByteAt, PrepareMaskingKey;
    assert Represents(preparedKey, key, 0, size) by { PreparedRepresents(key, size); }
    var n := length / size;
    WholeWords(length, size);
    MaskWords(input, output, n, preparedKey, size);
    MaskRest(input, output, n * size, length, key, preparedKey, size);
    CombinedIsMasked(output[..length], old(input[..length]), preparedKey, size, key, 0, size);
  }

  lemma WholeWords(length: nat, size: WordSize)
    ensures length / size * size <= length && length - length / size * size == length % size < size
    ensures (length - length % size) % size == 0
  {
  }

  lemma PreparedRepresents(key: Key, size: WordSize)
    ensures Represents(PrepareMaskingKey(key, size), key, 0, size)
  {
    PreparedByte(key, 0, size);
    forall i | 0 <= i < size
      ensures ByteAt(PrepareMaskingKey(key, size), i) == key[(0 + i) % 4]
    {
      PreparedByte(key, i, size);
    }
  }

  lemma ModFour(a: nat, b: nat, period: nat)
    requires period == 4 || period == 8
    ensures (a + b % period) % 4 == (a + b) % 4
  {
  }

  /** A word that stands for the key does the byte rule's work, byte by byte or all at once. */
  lemma CombinedIsMasked(out: seq<bv8>, data: seq<bv8>, p: bv64, period: nat, key: Key, offset: nat, size: WordSize)
    requires period == 4 || period == size
    requires Represents(p, key, offset, size) && Combined(out, data, p, period)
    ensures out == Masked(data, key, offset)
  {
    hide Xor, ByteAt;
    forall i | 0 <= i < |data|
      ensures out[i] == Masked(data, key, offset)[i]
    {
      ModFour(offset, i, period);
      assert ByteAt(p, i % period) == key[(offset + i % period) % 4];
    }
  }

  /** The shifted word stands for the key behind the piece. */
  lemma ShiftedRepresents(p: bv64, key: Key, offset: nat, length: nat, period: nat, size: WordSize)
    requires period == 4 || period == size
    requires Represents(p, key, offset, size)
    ensures Represents(CircshiftPreparedKey(p, length % period, size), key, offset + length, size)
  {
    hide Xor, ByteAt, CircshiftPreparedKey;
    var q, o := CircshiftPreparedKey(p, length % period, size), length % period;
    ShiftedByte(p, o, 0, size);
    forall i | 0 <= i < size
      ensures ByteAt(q, i) == key[(offset + length + i) % 4]
    {
      ShiftedByte(p, o, i, size);
      assert ByteAt(p, (i + o) % size) == key[(offset + (i + o) % size) % 4];
      ModFour(offset, i + o, size);
      ModFour(offset + i, length, period);
    }
  }

  /** The bytes behind the last whole word. */
  method MaskTail(input: array<bv8>, output: array<bv8>, start: nat, l: nat, p: bv64, size: WordSize)
    requires start + l <= input.Length && start + l <= output.Length && start % size == 0 && l < size
    modifies output
    ensures forall j :: start <= j < start + l ==> output[j] == Xor(old(input[j]), ByteAt(p, j % size))
    ensures forall j :: 0 <= j < start || start + l <= j < output.Length ==> output[j] == old(output[j])
  {
    hide Xor, ByteAt;
    var byteKey := Image(p, size);
    for i := 0 to l
      invariant forall j :: start <= j < start + i ==> output[j] == Xor(old(input[j]), ByteAt(p, j % size))
      invariant forall j :: start + i <= j < input.Length ==> input[j] == old(input[j])
      invariant forall j :: 0 <= j < start || start + i <= j < output.Length ==> output[j] == old(output[j])
    {
      ModWord(start, i, size);
      output[start + i] := Xor(input[start + i], byteKey[i]);
    }
  }

  /** word_mask_circ. */
  method WordMaskCirc(input: array<bv8>, output: array<bv8>, length: nat, preparedKey: bv64, size: WordSize) returns (next: bv64)
    requires length <= input.Length && length <= output.Length
    modifies output
    ensures Combined(output[..length], old(input[..length]), preparedKey, size)
    ensures output[length..] == old(output[length..])
    ensures next == CircshiftPreparedKey(preparedKey, length % size, size)
  {
    hide Xor, ByteAt, CircshiftPreparedKey;
    var n := length / size;
    WholeWords(length, size);
    var l := length - n * size;
    MaskWords(input, output, n, preparedKey, size);
    var start := length - l;
    assert start == n * size;
    MaskTail(input, output, start, l, preparedKey, size);
    return CircshiftPreparedKey(preparedKey, l, size);
  }

  lemma ModWord(start: nat, i: nat, size: WordSize)
    requires start % size == 0 && i < size
    ensures (start + i) % size == i
  {
  }

  /** byte_mask_circ. */
  method ByteMaskCirc(input: array<bv8>, output: array<bv8>, length: nat, preparedKey: bv64, size: WordSize) returns (next: bv64)
    requires length <= input.Length && length <= output.Length
    modifies output
    ensures Combined(output[..length], old(input[..length]), preparedKey, 4)
    ensures output[length..] == old(output[length..])
    ensures next == CircshiftPreparedKey(preparedKey, length % 4, size)
  {
    hide Xor, ByteAt, CircshiftPreparedKey;
    var key := Image(preparedKey, size)[..4];
    for i := 0 to length
      invariant forall j :: 0 <= j < i ==> output[j] == Xor(old(input[j]), ByteAt(preparedKey, j % 4))
      invariant forall j :: i <= j < input.Length ==> input[j] == old(input[j])
      invariant forall j :: length <= j < output.Length ==> output[j] == old(output[j])
    {
      output[i] := Xor(input[i], key[i % 4]);
    }
    return CircshiftPreparedKey(preparedKey, length % 4, size);
  }

  // ----- a payload in pieces -----

  /** A piece of a payload and which of the two loops masks it. */
  datatype Piece = Piece(data: seq<bv8>, byWord: bool)

  function Payload(pieces: seq<Piece>): seq<bv8> {
    if pieces == [] then [] else Payload(pieces[..|pieces| - 1]) + pieces[|pieces| - 1].data
  }

  /** One piece, in place. */
  method MaskPiece(piece: Piece, prepared: bv64, size: WordSize, ghost key: Key, ghost offset: nat) returns (out: seq<bv8>, next: bv64)
    requires Represents(prepared, key, offset, size)
    ensures out == Masked(piece.data, key, offset) && Represents(next, key, offset + |piece.data|, size)
  {
    hide Xor, ByteAt, CircshiftPreparedKey, Represents, Combined;
    var n := |piece.data|;
    var buffer := new bv8[n](i requires 0 <= i < n => piece.data[i]);
    assert buffer[..n] == piece.data;
    if piece.byWord {
      next := WordMaskCirc(buffer, buffer, n, prepared, size);
      CombinedIsMasked(buffer[..n], piece.data, prepared, size, key, offset, size);
      ShiftedRepresents(prepared, key, offset, n, size, size);
    } else {
      next := ByteMaskCirc(buffer, buffer, n, prepared, size);
      CombinedIsMasked(buffer[..n], piece.data, prepared, 4, key, offset, size);
      ShiftedRepresents(prepared, key, offset, n, 4, size);
    }
    out := buffer[..n];
  }

  /** However a payload is cut into pieces and whichever loop masks each, handing the returned key on
      gives the same bytes as one pass of the byte rule over the whole payload. */
  method MaskPieces(pieces: seq<Piece>, key: Key, size: WordSize) returns (out: seq<bv8>)
    ensures out == Masked(Payload(pieces), key, 0)
  {
    hide *;
    var prepared := PrepareMaskingKey(key, size);
    PreparedRepresents(key, size);
    PayloadEnds(pieces, key);
    out := [];
    for i := 0 to |pieces|
      invariant Represents(prepared, key, |Payload(pieces[..i])|, size) && out == Masked(Payload(pieces[..i]), key, 0)
    {
      var masked;
      PayloadSnoc(pieces, i, key);
      masked, prepared := MaskPiece(pieces[i], prepared, size, key, |Payload(pieces[..i])|);
      out := out + masked;
    }
  }

  lemma PayloadEnds(pieces: seq<Piece>, key: Key)
    ensures Payload(pieces[..0]) == [] && Masked([], key, 0) == [] && pieces[..|pieces|] == pieces
  {
  }

  lemma PayloadSnoc(pieces: seq<Piece>, i: nat, key: Key)
    requires i < |pieces|
    ensures var front, data := Payload(pieces[..i]), pieces[i].data;
      && Payload(pieces[..i + 1]) == front + data && |front + data| == |front| + |data|
      && Masked(front + data, key, 0) == Masked(front, key, 0) + Masked(data, key, |front|)
  {
    assert pieces[..i + 1][..i] == pieces[..i];
    MaskedAppend(Payload(pieces[..i]), pieces[i].data, key, 0);
  }
}
