/** Capability-token bodies: a canonical printer and a strict parser. */
module Capability {
  import opened Wire
  import opened Lex

  type Token = seq<byte>

  const TOKEN_LENGTH_BYTES := 2

  predicate TokenByte(b: byte) {
    || 97 <= b <= 122              // a-z
    || 48 <= b <= 57               // 0-9
    || b == 46 || b == 95 || b == 45 // . _ -
  }

  predicate ValidToken(t: Token) { t != [] && forall i | 0 <= i < |t| :: TokenByte(t[i]) }

  predicate Ascii(t: Token) { forall i | 0 <= i < |t| :: t[i] < 0x80 }

  /** A lower-case letter, a digit, a dot, an underscore or a hyphen. */
  predicate TokenChar(c: char) { 'a' <= c <= 'z' || '0' <= c <= '9' || c == '.' || c == '_' || c == '-' }

  /** A token is a non-empty string of token characters. */
  lemma {:induction false} ValidTokenIff(t: Token)
    ensures ValidToken(t) <==> t != [] && forall i | 0 <= i < |t| :: TokenChar(t[i] as char)
    ensures ValidToken(t) ==> Ascii(t)
  {
  }

  // ---------------------------------------------------------------- the canonical form

  function Entry(t: Token): seq<byte> { ToLE(|t|, TOKEN_LENGTH_BYTES) + t }

  /** The body that holds a list of tokens: each token after its length. */
  function Entries(ts: seq<Token>): seq<byte> {
    if ts == [] then [] else Entries(ts[..|ts| - 1]) + Entry(ts[|ts| - 1])
  }

  /** A token follows its length, low byte first. */
  lemma {:induction false} EntryBytes(t: Token)
    requires |t| <= 0xffff
    ensures Entry(t) == [|t| % 0x100, |t| / 0x100] + t
  {
    assert ToLE(|t| / 0x100, 1) == [|t| / 0x100] + ToLE(0, 0);
  }

  /** Valid tokens, each once, in byte order, none longer than its length field can say. */
  ghost predicate Canonical(ts: seq<Token>) {
    Sorted(ts) && forall t | t in ts :: ValidToken(t) && |t| <= U16_MAX
  }

  // ---------------------------------------------------------------- sorting

  ghost predicate Ordered(ts: seq<Token>) { forall i, j | 0 <= i < j < |ts| :: !Less(ts[j], ts[i]) }

  function InsertToken(t: Token, ts: seq<Token>): seq<Token> {
    if ts == [] || !Less(ts[0], t) then [t] + ts else [ts[0]] + InsertToken(t, ts[1..])
  }

  function SortTokens(ts: seq<Token>): seq<Token> {
    if ts == [] then [] else InsertToken(ts[0], SortTokens(ts[1..]))
  }

  lemma {:induction false} InsertKeeps(t: Token, ts: seq<Token>)
    ensures multiset(InsertToken(t, ts)) == multiset(ts) + multiset{t}
  {
    if ts != [] && Less(ts[0], t) {
      InsertKeeps(t, ts[1..]);
      assert ts == [ts[0]] + ts[1..];
    }
  }

  lemma {:induction false} SortKeeps(ts: seq<Token>)
    ensures multiset(SortTokens(ts)) == multiset(ts)
  {
    if ts != [] {
      SortKeeps(ts[1..]);
      InsertKeeps(ts[0], SortTokens(ts[1..]));
      assert ts == [ts[0]] + ts[1..];
    }
  }

  lemma {:induction false} InsertOrdered(t: Token, ts: seq<Token>)
    requires Ordered(ts)
    ensures Ordered(InsertToken(t, ts))
  {
    var r := InsertToken(t, ts);
    if ts == [] || !Less(ts[0], t) {
      forall j | 0 < j < |r| ensures !Less(r[j], r[0]) {
        if Less(r[j], t) {
          Total(ts[0], r[j]);
          if ts[0] != r[j] { Transitive(ts[0], r[j], t); }
        }
      }
    } else {
      InsertOrdered(t, ts[1..]);
      InsertKeeps(t, ts[1..]);
      var rest := InsertToken(t, ts[1..]);
      forall j | 0 <= j < |rest| ensures !Less(rest[j], ts[0]) {
        assert rest[j] in multiset(rest);
        if rest[j] == t {
          Asymmetric(ts[0], t);
        } else {
          assert rest[j] in ts[1..];
          var k :| 0 <= k < |ts[1..]| && ts[1..][k] == rest[j];
          assert ts[k + 1] == rest[j];
        }
      }
    }
  }

  lemma {:induction false} SortOrdered(ts: seq<Token>)
    ensures Ordered(SortTokens(ts))
  {
    if ts != [] {
      SortOrdered(ts[1..]);
      InsertOrdered(ts[0], SortTokens(ts[1..]));
    }
  }

  predicate NeighboursDiffer(ts: seq<Token>) { forall i | 0 <= i < |ts| - 1 :: ts[i] != ts[i + 1] }

  /** In an ordered list, unequal neighbours make all tokens distinct and the order strict. */
  lemma {:induction false} NeighboursSuffice(ts: seq<Token>)
    requires Ordered(ts)
    ensures NeighboursDiffer(ts) <==> Sorted(ts)
  {
    if NeighboursDiffer(ts) {
      forall i, j | 0 <= i < j < |ts| ensures Less(ts[i], ts[j]) {
        NeighbourStep(ts, i, j);
      }
    } else {
      var i :| 0 <= i < |ts| - 1 && ts[i] == ts[i + 1];
      Irreflexive(ts[i]);
      assert !Less(ts[i], ts[i + 1]);
    }
  }

  lemma {:induction false} NeighbourStep(ts: seq<Token>, i: nat, j: nat)
    requires Ordered(ts) && NeighboursDiffer(ts) && i < j < |ts|
    ensures Less(ts[i], ts[j])
    decreases j
  {
    Total(ts[j - 1], ts[j]);
    assert ts[j - 1] != ts[j - 1 + 1];
    if i < j - 1 {
      NeighbourStep(ts, i, j - 1);
      Transitive(ts[i], ts[j - 1], ts[j]);
    }
  }

  // ---------------------------------------------------------------- encoding

  ghost predicate Distinct(ts: seq<Token>) { forall i, j | 0 <= i < j < |ts| :: ts[i] != ts[j] }

  function FirstInvalid(ts: seq<Token>): (r: Option<Token>)
    ensures r.None? <==> forall t | t in ts :: ValidToken(t)
  {
    if ts == [] then None
    else if !ValidToken(ts[0]) then Some(ts[0])
    else
      assert forall t | t in ts :: t == ts[0] || t in ts[1..];
      FirstInvalid(ts[1..])
  }

  predicate LengthsFit(ts: seq<Token>) { forall t | t in ts :: |t| <= U16_MAX }

  function Encode(ts: seq<Token>): Result<seq<byte>, NnrpError> {
    var sorted := SortTokens(ts);
    if FirstInvalid(ts).Some? then Err(InvalidCapabilityToken(FirstInvalid(ts).value))
    else if !NeighboursDiffer(sorted) then Err(InvalidCapabilityTokenBody(TokensNotUnique))
    else if !LengthsFit(sorted) then Err(MessageLengthOverflow)
    else Ok(Entries(sorted))
  }

  lemma {:induction false} SameElements(a: seq<Token>, b: seq<Token>)
    requires multiset(a) == multiset(b)
    ensures |a| == |b| && forall t :: t in a <==> t in b
  {
    assert forall t :: t in a <==> t in multiset(a);
    assert forall t :: t in b <==> t in multiset(b);
    assert |multiset(a)| == |a| && |multiset(b)| == |b|;
  }

  lemma {:induction false} DistinctCount(ts: seq<Token>)
    ensures Distinct(ts) <==> forall t :: multiset(ts)[t] <= 1
  {
    if Distinct(ts) {
      if ts != [] {
        var n := |ts| - 1;
        DistinctCount(ts[..n]);
        assert ts == ts[..n] + [ts[n]];
        assert ts[n] !in ts[..n];
      }
    } else {
      var i, j :| 0 <= i < j < |ts| && ts[i] == ts[j];
      CountedTwice(ts, i, j);
    }
  }

  lemma {:induction false} CountedTwice(ts: seq<Token>, i: nat, j: nat)
    requires i < j < |ts| && ts[i] == ts[j]
    ensures multiset(ts)[ts[i]] >= 2
  {
    assert ts == ts[..i] + [ts[i]] + ts[i + 1..j] + [ts[j]] + ts[j + 1..];
  }

  /** Encoding succeeds exactly for distinct valid tokens of encodable length, and then prints the
      sorted list, which is canonical. */
  lemma {:induction false} EncodeAccepts(ts: seq<Token>)
    ensures Encode(ts).Ok? <==> Distinct(ts) && LengthsFit(ts) && forall t | t in ts :: ValidToken(t)
    ensures Encode(ts).Ok? ==> Encode(ts).value == Entries(SortTokens(ts)) && Canonical(SortTokens(ts))
  {
    var sorted := SortTokens(ts);
    SortOrdered(ts);
    SortKeeps(ts);
    NeighboursSuffice(sorted);
    SameElements(sorted, ts);
    DistinctCount(ts);
    DistinctCount(sorted);
    if Sorted(sorted) { SortedDistinct(sorted); }
    if Distinct(sorted) { assert forall i | 0 <= i < |sorted| - 1 :: sorted[i] != sorted[i + 1]; }
  }

  // ---------------------------------------------------------------- decoding

  datatype Read = Read(token: Token, next: nat)

  /** Read the entry at `offset`, after `tokens` have been read. */
  function ReadEntry(body: seq<byte>, offset: nat, tokens: seq<Token>): (r: Result<Read, NnrpError>)
    requires offset < |body|
    ensures r.Ok? ==> offset < r.value.next <= |body|
  {
    var start := offset + TOKEN_LENGTH_BYTES;
    if start > |body| then Err(InvalidCapabilityTokenBody(LengthMissing))
    else
      var len := FromLE(body[offset..start]);
      if len == 0 then Err(InvalidCapabilityTokenBody(ZeroLengthToken))
      else if start + len > |body| then Err(InvalidCapabilityTokenBody(TokenTooLong))
      else
        var token := body[start..start + len];
        if TokenError(token, tokens).Some? then Err(TokenError(token, tokens).value) else Ok(Read(token, start + len))
  }

  /** Decode entries from `offset` on, after `tokens` have been read. */
  function DecodeFrom(body: seq<byte>, offset: nat, tokens: seq<Token>): Result<seq<Token>, NnrpError>
    requires offset <= |body|
    decreases |body| - offset
  {
    if offset == |body| then Ok(tokens)
    else
      var r := ReadEntry(body, offset, tokens);
      if r.Err? then Err(r.error) else DecodeFrom(body, r.value.next, tokens + [r.value.token])
  }

  /** What can be wrong with a token, given the tokens read before it; only the last one is looked at. */
  function TokenError(token: Token, tokens: seq<Token>): Option<NnrpError> {
    if !Ascii(token) then Some(InvalidCapabilityTokenBody(TokenNotAscii))
    else if !ValidToken(token) then Some(InvalidCapabilityToken(token))
    else if tokens == [] then None
    else if tokens[|tokens| - 1] == token then Some(InvalidCapabilityTokenBody(TokensNotUnique))
    else if Less(token, tokens[|tokens| - 1]) then Some(InvalidCapabilityTokenBody(TokensNotSorted))
    else None
  }

  function Decode(body: seq<byte>, count: u16): Result<seq<Token>, NnrpError> {
    if count == 0 then
      if body == [] then Ok([]) else Err(InvalidCapabilityTokenBody(ZeroCountWithBody))
    else if body == [] then Err(InvalidCapabilityTokenBody(CountWithoutBody))
    else
      var r := DecodeFrom(body, 0, []);
      if r.Ok? && |r.value| != count then Err(DeclaredLengthMismatch(count, |r.value|)) else r
  }

  predicate HasHighByte(t: Token) { exists i :: 0 <= i < |t| && t[i] >= 0x80 }

  predicate HasOtherChar(t: Token) { exists i :: 0 <= i < |t| && !TokenChar(t[i] as char) }

  /** Why an entry is refused, in the order of the tests: no room for its length, no bytes, too few bytes
      left, a byte that is not ASCII, a byte no token has, the same token as before, a smaller one. */
  lemma {:induction false} EntryRefusal(body: seq<byte>, offset: nat, tokens: seq<Token>)
    requires offset < |body|
    ensures var r := ReadEntry(body, offset, tokens);
      if |body| - offset < 2 then r == Err(InvalidCapabilityTokenBody(LengthMissing))
      else
        var len := body[offset] as int + 0x100 * body[offset + 1] as int;
        if len == 0 then r == Err(InvalidCapabilityTokenBody(ZeroLengthToken))
        else if len > |body| - offset - 2 then r == Err(InvalidCapabilityTokenBody(TokenTooLong))
        else
          var token := body[offset + 2..offset + 2 + len];
          if HasHighByte(token) then r == Err(InvalidCapabilityTokenBody(TokenNotAscii))
          else if HasOtherChar(token) then
            r == Err(InvalidCapabilityToken(token))
          else if tokens != [] && tokens[|tokens| - 1] == token then
            r == Err(InvalidCapabilityTokenBody(TokensNotUnique))
          else if tokens != [] && Less(token, tokens[|tokens| - 1]) then
            r == Err(InvalidCapabilityTokenBody(TokensNotSorted))
          else r == Ok(Read(token, offset + 2 + len))
  {
    if |body| - offset >= 2 {
      LittleEndian(body, offset);
      var len := FromLE(body[offset..offset + TOKEN_LENGTH_BYTES]);
      assert len == body[offset] as int + 0x100 * body[offset + 1] as int;
      if len > 0 && offset + 2 + len <= |body| { TokenRefusal(body[offset + 2..offset + 2 + len], tokens); }
    }
  }

  /** Why a token is refused after the tokens read before it. */
  lemma {:induction false} TokenRefusal(token: Token, tokens: seq<Token>)
    requires token != []
    ensures TokenError(token, tokens) ==
      if HasHighByte(token) then Some(InvalidCapabilityTokenBody(TokenNotAscii))
      else if HasOtherChar(token) then Some(InvalidCapabilityToken(token))
      else if tokens != [] && tokens[|tokens| - 1] == token then Some(InvalidCapabilityTokenBody(TokensNotUnique))
      else if tokens != [] && Less(token, tokens[|tokens| - 1]) then Some(InvalidCapabilityTokenBody(TokensNotSorted))
      else None
  {
    ValidTokenIff(token);
  }

  /** Why a body is refused as a whole: a count without a body, a body without a count, a wrong count. */
  lemma {:induction false} DecodeRefusal(body: seq<byte>, count: u16)
    ensures count == 0 && body != [] ==> Decode(body, count) == Err(InvalidCapabilityTokenBody(ZeroCountWithBody))
    ensures count != 0 && body == [] ==> Decode(body, count) == Err(InvalidCapabilityTokenBody(CountWithoutBody))
    ensures forall ts | count != 0 && body != [] && Canonical(ts) && Entries(ts) == body && |ts| != count ::
      Decode(body, count) == Err(DeclaredLengthMismatch(count, |ts|))
  {
    forall ts | count != 0 && body != [] && Canonical(ts) && Entries(ts) == body && |ts| != count
      ensures Decode(body, count) == Err(DeclaredLengthMismatch(count, |ts|))
    {
      assert ts[..0] == [];
      DecodeFromComplete(ts, 0, body, 0, []);
    }
  }

  /** A token that passes the neighbour comparison keeps the whole list canonical. */
  lemma {:induction false} AppendCanonical(ts: seq<Token>, t: Token)
    requires Canonical(ts) && |t| <= U16_MAX
    ensures TokenError(t, ts).None? <==> Canonical(ts + [t])
  {
    var all := ts + [t];
    if TokenError(t, ts).None? {
      forall i | 0 <= i < |ts| ensures Less(ts[i], t) {
        Total(ts[|ts| - 1], t);
        if i < |ts| - 1 { Transitive(ts[i], ts[|ts| - 1], t); }
      }
      assert Canonical(all);
    } else if Canonical(all) {
      assert t in all;
      assert all[|ts|] == t;
      if ts != [] {
        assert Less(all[|ts| - 1], all[|ts|]);
        Asymmetric(ts[|ts| - 1], t);
      }
      assert false;
    }
  }

  lemma {:induction false} EntriesAppend(ts: seq<Token>, t: Token)
    ensures Entries(ts + [t]) == Entries(ts) + Entry(t)
  {
    assert (ts + [t])[..|ts|] == ts;
  }

  lemma {:induction false} ReadSound(body: seq<byte>, offset: nat, ts: seq<Token>)
    requires offset < |body| && ReadEntry(body, offset, ts).Ok?
    ensures var Read(t, next) := ReadEntry(body, offset, ts).value;
      body[offset..next] == Entry(t) && |t| <= U16_MAX && TokenError(t, ts).None?
  {
    var start := offset + TOKEN_LENGTH_BYTES;
    var Read(t, next) := ReadEntry(body, offset, ts).value;
    Widths();
    ToFromLE(body[offset..start]);
    assert body[offset..next] == body[offset..start] + t;
  }

  lemma {:induction false} ReadComplete(body: seq<byte>, offset: nat, ts: seq<Token>, t: Token, next: nat)
    requires offset < next <= |body| && body[offset..next] == Entry(t)
    requires |t| <= U16_MAX && TokenError(t, ts).None?
    ensures ReadEntry(body, offset, ts) == Ok(Read(t, next))
  {
    var start := offset + TOKEN_LENGTH_BYTES;
    assert body[offset..start] == body[offset..next][..TOKEN_LENGTH_BYTES] == ToLE(|t|, TOKEN_LENGTH_BYTES);
    assert body[start..next] == body[offset..next][TOKEN_LENGTH_BYTES..] == t;
    Widths();
    FromToLE(|t|, TOKEN_LENGTH_BYTES);
  }

  lemma {:induction false} DecodeFromSound(body: seq<byte>, offset: nat, ts: seq<Token>)
    requires offset <= |body| && Entries(ts) == body[..offset] && Canonical(ts)
    ensures var r := DecodeFrom(body, offset, ts); r.Ok? ==> Entries(r.value) == body && Canonical(r.value)
    decreases |body| - offset
  {
    if offset == |body| {
      assert body[..offset] == body;
    } else if ReadEntry(body, offset, ts).Ok? {
      var Read(t, next) := ReadEntry(body, offset, ts).value;
      ReadSound(body, offset, ts);
      AppendCanonical(ts, t);
      EntriesAppend(ts, t);
      assert body[..next] == body[..offset] + body[offset..next];
      DecodeFromSound(body, next, ts + [t]);
    }
  }

  lemma {:induction false} EntriesPrefix(ts: seq<Token>, k: nat)
    requires k <= |ts|
    ensures |Entries(ts[..k])| <= |Entries(ts)| && Entries(ts)[..|Entries(ts[..k])|] == Entries(ts[..k])
    decreases |ts| - k
  {
    if k == |ts| {
      assert ts[..k] == ts;
    } else {
      EntriesPrefix(ts, k + 1);
      EntriesAppend(ts[..k], ts[k]);
      assert ts[..k + 1] == ts[..k] + [ts[k]];
    }
  }

  lemma {:induction false} EntryAt(ts: seq<Token>, k: nat)
    requires k < |ts|
    ensures var at, next := |Entries(ts[..k])|, |Entries(ts[..k + 1])|;
      at < next <= |Entries(ts)| && Entries(ts)[at..next] == Entry(ts[k])
  {
    var body, at, next := Entries(ts), |Entries(ts[..k])|, |Entries(ts[..k + 1])|;
    EntriesPrefix(ts, k + 1);
    assert ts[..k + 1] == ts[..k] + [ts[k]];
    EntriesAppend(ts[..k], ts[k]);
    assert body[at..next] == body[..next][at..];
  }

  lemma {:induction false} NoErrorAt(ts: seq<Token>, k: nat)
    requires Canonical(ts) && k < |ts|
    ensures TokenError(ts[k], ts[..k]).None? && |ts[k]| <= U16_MAX
  {
    assert ts[k] in ts;
    CanonicalPrefix(ts, k);
    CanonicalPrefix(ts, k + 1);
    assert ts[..k + 1] == ts[..k] + [ts[k]];
    AppendCanonical(ts[..k], ts[k]);
  }

  lemma {:induction false} ReadAt(ts: seq<Token>, k: nat)
    requires Canonical(ts) && k < |ts|
    ensures var at, next := |Entries(ts[..k])|, |Entries(ts[..k + 1])|;
      at < next <= |Entries(ts)| && ReadEntry(Entries(ts), at, ts[..k]) == Ok(Read(ts[k], next))
  {
    EntryAt(ts, k);
    NoErrorAt(ts, k);
    ReadComplete(Entries(ts), |Entries(ts[..k])|, ts[..k], ts[k], |Entries(ts[..k + 1])|);
  }

  lemma {:induction false} DecodeStep(
    body: seq<byte>, offset: nat, ts: seq<Token>, t: Token, next: nat, more: seq<Token>)
    requires offset < next <= |body| && ReadEntry(body, offset, ts) == Ok(Read(t, next)) && more == ts + [t]
    ensures DecodeFrom(body, offset, ts) == DecodeFrom(body, next, more)
  {
  }

  lemma {:induction false} DecodeFromComplete(ts: seq<Token>, k: nat, body: seq<byte>, at: nat, before: seq<Token>)
    requires Canonical(ts) && k <= |ts| && body == Entries(ts)
    requires before == ts[..k] && at == |Entries(before)| <= |body|
    ensures DecodeFrom(body, at, before) == Ok(ts)
    decreases |ts| - k
  {
    if k == |ts| {
      assert before == ts;
      WholeBody(body, at, ts);
    } else {
      var after := ts[..k + 1];
      var next := |Entries(after)|;
      ReadAt(ts, k);
      OneTokenMore(ts, k);
      DecodeStep(body, at, before, ts[k], next, after);
      DecodeFromComplete(ts, k + 1, body, next, after);
    }
  }

  lemma {:induction false} OneTokenMore(ts: seq<Token>, k: nat)
    requires k < |ts|
    ensures ts[..k + 1] == ts[..k] + [ts[k]]
  {
  }

  lemma {:induction false} WholeBody(body: seq<byte>, at: nat, ts: seq<Token>)
    requires at == |body|
    ensures DecodeFrom(body, at, ts) == Ok(ts)
  {
  }

  lemma {:induction false} CanonicalPrefix(ts: seq<Token>, k: nat)
    requires Canonical(ts) && k <= |ts|
    ensures Canonical(ts[..k])
  {
  }

  lemma {:induction false} EmptyEntries(ts: seq<Token>)
    ensures Entries(ts) == [] <==> ts == []
  {
  }

  /** The decoder accepts a body with a count exactly when the body is the canonical print of that
      many tokens, and returns those tokens. */
  lemma {:induction false} DecodeIff(body: seq<byte>, count: u16, ts: seq<Token>)
    ensures Decode(body, count) == Ok(ts) <==> Canonical(ts) && |ts| == count && Entries(ts) == body
  {
    EmptyEntries(ts);
    if count != 0 && body != [] {
      if Decode(body, count) == Ok(ts) {
        assert Entries([]) == body[..0];
        DecodeFromSound(body, 0, []);
      }
      if Canonical(ts) && |ts| == count && Entries(ts) == body {
        assert ts[..0] == [];
        DecodeFromComplete(ts, 0, body, 0, []);
      }
    }
  }

  // ---------------------------------------------------------------- printer and parser together

  /** Decoding an encoded list with its count returns the sorted list. */
  lemma {:induction false} EncodeDecode(ts: seq<Token>)
    requires Encode(ts).Ok? && |ts| <= U16_MAX
    ensures Decode(Encode(ts).value, |ts|) == Ok(SortTokens(ts))
  {
    EncodeAccepts(ts);
    SortKeeps(ts);
    SameElements(SortTokens(ts), ts);
    DecodeIff(Encode(ts).value, |ts|, SortTokens(ts));
  }

  lemma {:induction false} OrderedUnique(a: seq<Token>, b: seq<Token>)
    requires Sorted(a) && Sorted(b) && multiset(a) == multiset(b)
    ensures a == b
  {
    SameElements(a, b);
    SortedUnique(a, b);
  }

  /** Encoding the tokens of an accepted body reproduces the body. */
  lemma {:induction false} DecodeEncode(body: seq<byte>, count: u16)
    requires Decode(body, count).Ok?
    ensures Encode(Decode(body, count).value) == Ok(body)
  {
    var ts := Decode(body, count).value;
    DecodeIff(body, count, ts);
    SortedDistinct(ts);
    EncodeAccepts(ts);
    SortKeeps(ts);
    OrderedUnique(SortTokens(ts), ts);
  }

  /** A permutation of the tokens encodes to the same body. */
  lemma {:induction false} EncodePermutation(a: seq<Token>, b: seq<Token>)
    requires multiset(a) == multiset(b) && Encode(a).Ok?
    ensures Encode(b) == Encode(a)
  {
    SameElements(a, b);
    DistinctCount(a);
    DistinctCount(b);
    EncodeAccepts(a);
    EncodeAccepts(b);
    SortKeeps(a);
    SortKeeps(b);
    OrderedUnique(SortTokens(a), SortTokens(b));
  }

  /** Two accepted bodies with the same tokens are the same bytes with the same count. */
  lemma {:induction false} SameTokensSameBody(a: seq<byte>, m: u16, b: seq<byte>, n: u16)
    requires Decode(a, m).Ok? && Decode(b, n).Ok?
    requires forall t :: t in Decode(a, m).value <==> t in Decode(b, n).value
    ensures a == b && m == n
  {
    DecodeIff(a, m, Decode(a, m).value);
    DecodeIff(b, n, Decode(b, n).value);
    SortedUnique(Decode(a, m).value, Decode(b, n).value);
  }
}
