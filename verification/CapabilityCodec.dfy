/** The token encoder and decoder as the loops the protocol runs, proved equal to the printer and
    parser functions of `Capability`. */
module CapabilityCodec {
  import opened Wire
  import opened Lex
  import opened Capability

  /** One round of the decoder: the entry at `offset`, checked against the tokens read so far. */
  method NextToken(body: seq<byte>, offset: nat, tokens: seq<Token>) returns (r: Result<Read, NnrpError>)
    requires offset < |body|
    ensures r == ReadEntry(body, offset, tokens)
  {
    var lengthEnd := offset + TOKEN_LENGTH_BYTES;
    if lengthEnd > |body| { return Err(InvalidCapabilityTokenBody(LengthMissing)); }
    var tokenLen := FromLE(body[offset..lengthEnd]);
    if tokenLen == 0 { return Err(InvalidCapabilityTokenBody(ZeroLengthToken)); }
    var tokenEnd := lengthEnd + tokenLen;
    if tokenEnd > |body| { return Err(InvalidCapabilityTokenBody(TokenTooLong)); }
    var token := body[lengthEnd..tokenEnd];
    if !Ascii(token) { return Err(InvalidCapabilityTokenBody(TokenNotAscii)); }
    if !ValidToken(token) { return Err(InvalidCapabilityToken(token)); }
    if |tokens| > 0 {
      var previous := tokens[|tokens| - 1];
      if previous == token { return Err(InvalidCapabilityTokenBody(TokensNotUnique)); }
      if Less(token, previous) { return Err(InvalidCapabilityTokenBody(TokensNotSorted)); }
    }
    r := Ok(Read(token, tokenEnd));
  }

  method DecodeTokens(body: seq<byte>, count: u16) returns (r: Result<seq<Token>, NnrpError>)
    ensures r == Decode(body, count)
  {
    if count == 0 {
      if body == [] { return Ok([]); }
      return Err(InvalidCapabilityTokenBody(ZeroCountWithBody));
    }
    if body == [] { return Err(InvalidCapabilityTokenBody(CountWithoutBody)); }

    var tokens: seq<Token> := [];
    var offset := 0;
    while offset < |body|
      invariant 0 <= offset <= |body|
      invariant DecodeFrom(body, offset, tokens) == DecodeFrom(body, 0, [])
    {
      var entry := NextToken(body, offset, tokens);
      if entry.Err? { return Err(entry.error); }
      tokens := tokens + [entry.value.token];
      offset := entry.value.next;
    }
    if |tokens| != count { return Err(DeclaredLengthMismatch(count, |tokens|)); }
    r := Ok(tokens);
  }

  lemma {:induction false} InsertFurther(t: Token, ts: seq<Token>, k: nat)
    requires k <= |ts| && forall i | 0 <= i < k :: Less(ts[i], t)
    ensures InsertToken(t, ts) == ts[..k] + InsertToken(t, ts[k..])
    decreases k
  {
    if k == 0 {
      assert ts[0..] == ts;
    } else {
      var n := k - 1;
      InsertFurther(t, ts, n);
      assert ts[n..][0] == ts[n] && ts[n..][1..] == ts[k..];
      assert InsertToken(t, ts[n..]) == [ts[n]] + InsertToken(t, ts[k..]);
      assert ts[..k] == ts[..n] + [ts[n]];
    }
  }

  lemma {:induction false} InsertHere(t: Token, ts: seq<Token>, k: nat)
    requires k <= |ts| && (forall i | 0 <= i < k :: Less(ts[i], t)) && (k < |ts| ==> !Less(ts[k], t))
    ensures InsertToken(t, ts) == ts[..k] + [t] + ts[k..]
  {
    InsertFurther(t, ts, k);
    assert k < |ts| ==> ts[k..][0] == ts[k];
  }

  /** The token at `i` of `before` has moved to `j`, past smaller tokens that each moved one left. */
  lemma {:induction false} Sifted(before: seq<Token>, after: seq<Token>, i: nat, j: nat)
    requires i <= j < |before| == |after| && after[j] == before[i]
    requires forall k | i <= k < j :: after[k] == before[k + 1]
    requires forall k | j < k < |before| :: after[k] == before[k]
    requires forall k | i < k <= j :: Less(before[k], before[i])
    requires j + 1 < |before| ==> !Less(before[j + 1], before[i])
    ensures after[i..] == InsertToken(before[i], before[i + 1..])
  {
    var tail := before[i + 1..];
    InsertHere(before[i], tail, j - i);
    assert after[i..] == tail[..j - i] + [before[i]] + tail[j - i..];
  }

  /** Move the token at `i` right to its place in the sorted tail. */
  method SiftRight(a: array<Token>, i: nat)
    requires i < a.Length
    modifies a
    ensures a[..i] == old(a[..i])
    ensures a[i..] == InsertToken(old(a[i]), old(a[i + 1..]))
  {
    ghost var before := a[..];
    var t, j := a[i], i;
    while j + 1 < a.Length && Less(a[j + 1], t)
      invariant i <= j < a.Length
      invariant forall k | 0 <= k < i || j < k < a.Length :: a[k] == before[k]
      invariant forall k | i <= k < j :: a[k] == before[k + 1]
      invariant forall k | i < k <= j :: Less(before[k], t)
    {
      a[j] := a[j + 1];
      j := j + 1;
    }
    a[j] := t;
    Sifted(before, a[..], i, j);
    assert a[i..] == a[..][i..] && before[i + 1..] == old(a[i + 1..]);
  }

  method SortInPlace(a: array<Token>)
    modifies a
    ensures a[..] == SortTokens(old(a[..]))
  {
    ghost var input := a[..];
    for i := a.Length downto 0
      invariant a[..i] == input[..i] && a[i..] == SortTokens(input[i..])
    {
      ghost var tail := a[i + 1..];
      assert a[i] == a[..i + 1][i] == input[..i + 1][i];
      SiftRight(a, i);
      assert input[i..] == [input[i]] + input[i + 1..];
      assert a[..i] == input[..i];
    }
    assert a[..] == a[0..] && input[0..] == input;
  }

  method ValidateTokens(tokens: seq<Token>) returns (bad: Option<Token>)
    ensures bad == FirstInvalid(tokens)
  {
    for i := 0 to |tokens|
      invariant FirstInvalid(tokens) == FirstInvalid(tokens[i..])
    {
      if !ValidToken(tokens[i]) { return Some(tokens[i]); }
      assert tokens[i..][1..] == tokens[i + 1..];
    }
    bad := None;
  }

  method CheckNeighbours(a: array<Token>) returns (differ: bool)
    ensures differ == NeighboursDiffer(a[..])
  {
    if a.Length == 0 { return true; }
    for i := 0 to a.Length - 1
      invariant forall k | 0 <= k < i :: a[k] != a[k + 1]
    {
      if a[i] == a[i + 1] {
        assert a[..][i] == a[..][i + 1];
        return false;
      }
    }
    differ := true;
  }

  method JoinEntries(a: array<Token>) returns (r: Result<seq<byte>, NnrpError>)
    ensures r == if LengthsFit(a[..]) then Ok(Entries(a[..])) else Err(MessageLengthOverflow)
  {
    var body: seq<byte> := [];
    for i := 0 to a.Length
      invariant body == Entries(a[..i])
      invariant forall k | 0 <= k < i :: |a[k]| <= U16_MAX
    {
      if |a[i]| > U16_MAX {
        assert a[i] in a[..];
        return Err(MessageLengthOverflow);
      }
      EntriesAppend(a[..i], a[i]);
      assert a[..i + 1] == a[..i] + [a[i]];
      body := body + ToLE(|a[i]|, TOKEN_LENGTH_BYTES);
      body := body + a[i];
    }
    assert a[..a.Length] == a[..];
    r := Ok(body);
  }

  method EncodeTokens(tokens: seq<Token>) returns (r: Result<seq<byte>, NnrpError>)
    ensures r == Encode(tokens)
  {
    var bad := ValidateTokens(tokens);
    if bad.Some? { return Err(InvalidCapabilityToken(bad.value)); }
    var a := new Token[|tokens|](i requires 0 <= i < |tokens| => tokens[i]);
    assert a[..] == tokens;
    SortInPlace(a);
    var differ := CheckNeighbours(a);
    if !differ { return Err(InvalidCapabilityTokenBody(TokensNotUnique)); }
    r := JoinEntries(a);
  }
}
