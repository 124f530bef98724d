// Collaborative issuance: the parameter objects of the prover and of the
// issuer (their validation and the carry-over setters) and the serialised
// form of the pre-issuance proof's named responses.
//
// The zero-knowledge proof itself (CreateProof, VerifyProof and the
// challenge) is not part of this model. Issuer parameters, tokens and keys
// are reduced to the fields the checks read, and the text conversions of
// the serialisation layer are parameters.
module CollaborativeIssuance {
  import opened Wrappers
  import opened BigIntegers

  /** The parts of the issuer parameters read here: the length of G and UidP. */
  datatype IssuerParameters = IssuerParameters(generatorCount: nat, uidP: seq<Byte>)

  /** A U-Prove token, by the issuer parameters UID it was issued under. */
  datatype UProveToken = UProveToken(uidp: seq<Byte>)

  datatype UProveKeyAndToken = UProveKeyAndToken(token: UProveToken)

  /** Attribute values; an issuer may hold null for the ones it does not know. */
  type Attributes = seq<Option<seq<Byte>>>

  /** The 1-based attribute index lists C, Corig, U and K, each possibly null. */
  datatype Indices = Indices(c: Option<seq<int>>, corig: Option<seq<int>>, u: Option<seq<int>>, k: Option<seq<int>>)

  /** The distinct entries of an index list. */
  function Elements(a: seq<int>): set<int>
  {
    set x | x in a
  }

  /** A null index list as the empty one. */
  function OrEmpty(a: Option<seq<int>>): seq<int>
  {
    if a.None? then [] else a.value
  }

  /** The checks Validate makes before replacing null lists. */
  predicate NullChecksPass(attributesPresent: bool, ix: Indices)
  {
    && attributesPresent
    && (ix.c.Some? <==> ix.corig.Some?)
    && (ix.c.Some? ==> |ix.c.value| == |ix.corig.value|)
    && !(ix.c.None? && ix.u.None? && ix.k.Some?)
  }

  /** C, U and K are pairwise disjoint and jointly hold count distinct indices. */
  predicate Partitions(c: seq<int>, u: seq<int>, k: seq<int>, count: int)
  {
    && Elements(c) * Elements(u) == {}
    && Elements(u) * Elements(k) == {}
    && Elements(c) * Elements(k) == {}
    && |Elements(u) + Elements(c) + Elements(k)| == count
  }

  /**
   * The outcome of PreIssuanceParameters.Validate: ArgumentException for
   * null attributes, for C and Corig not both null or both non-null or of
   * different lengths, and for C and U null with K non-null, all with the
   * lists untouched. Otherwise every null list becomes empty, and the
   * result is ArgumentException unless C, U and K partition count indices.
   */
  function ValidateOutcome(attributesPresent: bool, ix: Indices, count: int): (out: (Status, Indices))
    ensures out.0.Raised? ==> out.0.error == ArgumentException
    ensures !NullChecksPass(attributesPresent, ix) ==> out == (Raised(ArgumentException), ix)
    ensures NullChecksPass(attributesPresent, ix) ==>
      out.1 == Indices(Some(OrEmpty(ix.c)), Some(OrEmpty(ix.corig)), Some(OrEmpty(ix.u)), Some(OrEmpty(ix.k)))
    ensures out.0.Done? <==>
      NullChecksPass(attributesPresent, ix) && Partitions(OrEmpty(ix.c), OrEmpty(ix.u), OrEmpty(ix.k), count)
  {
    if !attributesPresent then (Raised(ArgumentException), ix)
    else if (ix.c.Some? || ix.corig.Some?) && (ix.c.None? || ix.corig.None?) then (Raised(ArgumentException), ix)
    else if ix.c.Some? && |ix.c.value| != |ix.corig.value| then (Raised(ArgumentException), ix)
    else if ix.c.None? && ix.u.None? && ix.k.Some? then (Raised(ArgumentException), ix)
    else
      var ix' := Indices(Some(OrEmpty(ix.c)), Some(OrEmpty(ix.corig)), Some(OrEmpty(ix.u)), Some(OrEmpty(ix.k)));
      var c, u, k := ix'.c.value, ix'.u.value, ix'.k.value;
      if Elements(c) * Elements(u) != {} then (Raised(ArgumentException), ix')
      else if Elements(u) * Elements(k) != {} then (Raised(ArgumentException), ix')
      else if Elements(c) * Elements(k) != {} then (Raised(ArgumentException), ix')
      else if |Elements(u) + Elements(c) + Elements(k)| != count then (Raised(ArgumentException), ix')
      else (Done, ix')
  }

  /** Validating lists that passed validation again passes and changes nothing. */
  lemma ValidateIdempotent(attributesPresent: bool, ix: Indices, count: int)
    requires ValidateOutcome(attributesPresent, ix, count).0.Done?
    ensures ValidateOutcome(attributesPresent, ValidateOutcome(attributesPresent, ix, count).1, count)
         == ValidateOutcome(attributesPresent, ix, count)
  {
  }

  /**
   * Partitioned lists: the three index sets have sizes adding up to count,
   * so no index is counted twice.
   */
  lemma PartitionSizes(c: seq<int>, u: seq<int>, k: seq<int>, count: int)
    requires Partitions(c, u, k, count)
    ensures |Elements(c)| + |Elements(u)| + |Elements(k)| == count
  {
    assert Elements(u) * Elements(c) == Elements(c) * Elements(u);
    assert |Elements(u) + Elements(c)| == |Elements(u)| + |Elements(c)|;
    assert (Elements(u) + Elements(c)) * Elements(k) == {} by {
      forall x | x in Elements(k)
        ensures x !in Elements(u) + Elements(c)
      {
        assert x !in Elements(u) * Elements(k);
        assert x !in Elements(c) * Elements(k);
      }
    }
  }

  /**
   * The check counts distinct indices but does not look at their range:
   * with one attribute, U = [7] passes although attribute 1 is in none of
   * C, U and K.
   */
  lemma OutOfRangeIndicesPass()
    ensures ValidateOutcome(true, Indices(None, None, Some([7]), None), 1).0.Done?
    ensures 1 !in Elements([]) + Elements([7]) + Elements([])
  {
    assert Elements([7]) == {7} by {
      assert 7 in [7];
    }
    assert Elements([]) == {};
  }

  /** The evident intent: C, U and K are disjoint and together are exactly 1..count. */
  predicate CoversAttributes(c: seq<int>, u: seq<int>, k: seq<int>, count: nat)
  {
    && Elements(c) * Elements(u) == {}
    && Elements(u) * Elements(k) == {}
    && Elements(c) * Elements(k) == {}
    && Elements(u) + Elements(c) + Elements(k) == AttributeIndices(count)
  }

  /** The attribute indices 1..count. */
  function AttributeIndices(count: nat): (indices: set<int>)
    ensures forall i :: i in indices <==> 1 <= i <= count
  {
    if count == 0 then {} else AttributeIndices(count - 1) + {count}
  }

  lemma {:induction false} AttributeIndicesSize(count: nat)
    ensures |AttributeIndices(count)| == count
  {
    if count > 0 {
      AttributeIndicesSize(count - 1);
    }
  }

  /**
   * The intended check implies the one written, and it places every
   * attribute index 1..count in exactly one of C, U and K.
   */
  lemma CoversAttributesPartition(c: seq<int>, u: seq<int>, k: seq<int>, count: nat)
    requires CoversAttributes(c, u, k, count)
    ensures Partitions(c, u, k, count)
    ensures forall i :: 1 <= i <= count ==>
      (i in Elements(c) && i !in Elements(u) && i !in Elements(k))
      || (i !in Elements(c) && i in Elements(u) && i !in Elements(k))
      || (i !in Elements(c) && i !in Elements(u) && i in Elements(k))
  {
    AttributeIndicesSize(count);
    forall i | 1 <= i <= count
      ensures i in Elements(u) + Elements(c) + Elements(k)
    {
      assert i in AttributeIndices(count);
    }
  }

  /** Every attribute whose 1-based index is in K is present. */
  predicate KnownAttributesPresent(attributes: Attributes, k: seq<int>)
  {
    forall i :: 0 <= i < |attributes| && i + 1 in k ==> attributes[i].Some?
  }

  // ---------------------------------------------------------------------
  // Parameters

  /** The parameters shared by the prover and the issuer. */
  class PreIssuanceParameters {
    var ip: IssuerParameters
    var sourceIP: Option<IssuerParameters>
    var attributes: Option<Attributes>
    var ti: Option<seq<Byte>>
    var c: Option<seq<int>>
    var corig: Option<seq<int>>
    var hasCarryOverAttributes: bool
    var u: Option<seq<int>>
    var k: Option<seq<int>>

    constructor (ip: IssuerParameters)
      ensures this.ip == ip && sourceIP.None? && attributes.None? && ti.None?
      ensures c.None? && corig.None? && u.None? && k.None? && !hasCarryOverAttributes
    {
      this.ip := ip;
      sourceIP := None;
      attributes := None;
      ti := None;
      c := None;
      corig := None;
      hasCarryOverAttributes := false;
      u := None;
      k := None;
    }

    function Lists(): Indices
      reads this
    {
      Indices(c, corig, u, k)
    }

    /** The number of attributes the issuer parameters provide for, |G| - 2. */
    function AttributeCount(): int
      reads this
    {
      ip.generatorCount - 2
    }

    /**
     * Validate: the checks of ValidateOutcome, replacing null lists by
     * empty ones once the null checks pass; only the four lists change.
     */
    method Validate() returns (s: Status)
      modifies this
      ensures (s, Lists()) == ValidateOutcome(old(attributes).Some?, old(Lists()), AttributeCount())
      ensures ip == old(ip) && sourceIP == old(sourceIP) && attributes == old(attributes) && ti == old(ti)
      ensures hasCarryOverAttributes == old(hasCarryOverAttributes)
    {
      if attributes.None? {
        return Raised(ArgumentException);
      }
      if c.Some? || corig.Some? {
        if c.None? || corig.None? {
          return Raised(ArgumentException);
        }
      }
      if c.Some? && |c.value| != |corig.value| {
        return Raised(ArgumentException);
      }
      if c.None? && u.None? && k.Some? {
        return Raised(ArgumentException);
      }
      if c.None? {
        c := Some([]);
      }
      if corig.None? {
        corig := Some([]);
      }
      if k.None? {
        k := Some([]);
      }
      if u.None? {
        u := Some([]);
      }
      var C, U, K := Elements(c.value), Elements(u.value), Elements(k.value);
      if C * U != {} {
        return Raised(ArgumentException);
      }
      if U * K != {} {
        return Raised(ArgumentException);
      }
      if C * K != {} {
        return Raised(ArgumentException);
      }
      if |U + C + K| != ip.generatorCount - 2 {
        return Raised(ArgumentException);
      }
      return Done;
    }
  }

  /** The prover's parameters: the shared ones, and the source token and attributes. */
  class ProverPreIssuanceParameters {
    const params: PreIssuanceParameters
    var keyAndToken: Option<UProveKeyAndToken>
    var sourceAttributes: Option<Attributes>

    constructor (ip: IssuerParameters)
      ensures fresh(params) && params.ip == ip && params.Lists() == Indices(None, None, None, None)
      ensures params.attributes.None? && !params.hasCarryOverAttributes
      ensures keyAndToken.None? && sourceAttributes.None?
    {
      params := new PreIssuanceParameters(ip);
      keyAndToken := None;
      sourceAttributes := None;
    }

    /**
     * Validate: the shared checks, then ArgumentException when C is not
     * empty but there is no source key and token.
     */
    method Validate() returns (s: Status)
      modifies params
      ensures var out := ValidateOutcome(old(params.attributes).Some?, old(params.Lists()), old(params.AttributeCount()));
        && params.Lists() == out.1
        && (s.Done? <==> out.0.Done? && (|OrEmpty(out.1.c)| != 0 ==> keyAndToken.Some?))
      ensures s.Raised? ==> s.error == ArgumentException
      ensures params.ip == old(params.ip) && params.attributes == old(params.attributes)
      ensures params.sourceIP == old(params.sourceIP) && params.ti == old(params.ti)
      ensures params.hasCarryOverAttributes == old(params.hasCarryOverAttributes)
    {
      s := params.Validate();
      if s.Raised? {
        return;
      }
      if |params.c.value| != 0 && keyAndToken.None? {
        return Raised(ArgumentException);
      }
    }

    /**
     * CarryOverAttribute: ArgumentNullException for a null argument,
     * ArgumentException for index lists of different lengths or a token
     * not issued under sourceIP; otherwise C, Corig, the source issuer
     * parameters, key and token, and attributes are set and the carry-over
     * flag raised, which leaves C and Corig as Validate's pairing checks
     * want them.
     */
    method CarryOverAttribute(sourceIndex: Option<seq<int>>, destinationIndex: Option<seq<int>>,
                              sourceIP: Option<IssuerParameters>, sourceKeyAndToken: Option<UProveKeyAndToken>,
                              sourceAttributes: Option<Attributes>)
      returns (s: Status)
      modifies this, params
      ensures sourceIndex.None? || destinationIndex.None? || sourceIP.None? || sourceKeyAndToken.None? || sourceAttributes.None?
        ==> s == Raised(ArgumentNullException)
      ensures s.Raised? ==> unchanged(this) && unchanged(params)
      ensures s.Raised? && s.error != ArgumentNullException ==> s.error == ArgumentException
      ensures s.Done? <==>
        && sourceIndex.Some? && destinationIndex.Some? && sourceIP.Some? && sourceKeyAndToken.Some? && sourceAttributes.Some?
        && |sourceIndex.value| == |destinationIndex.value|
        && sourceKeyAndToken.value.token.uidp == sourceIP.value.uidP
      ensures s.Done? ==>
        && params.c == destinationIndex && params.corig == sourceIndex
        && params.sourceIP == sourceIP && keyAndToken == sourceKeyAndToken
        && this.sourceAttributes == sourceAttributes && params.hasCarryOverAttributes
        && params.ip == old(params.ip) && params.attributes == old(params.attributes)
        && params.ti == old(params.ti) && params.u == old(params.u) && params.k == old(params.k)
      ensures s.Done? ==> params.c.Some? && params.corig.Some? && |params.c.value| == |params.corig.value|
    {
      if sourceIndex.None? || destinationIndex.None? || sourceIP.None? || sourceKeyAndToken.None? || sourceAttributes.None? {
        return Raised(ArgumentNullException);
      }
      if |sourceIndex.value| != |destinationIndex.value| {
        return Raised(ArgumentException);
      }
      if sourceKeyAndToken.value.token.uidp != sourceIP.value.uidP {
        return Raised(ArgumentException);
      }
      params.c := destinationIndex;
      params.corig := sourceIndex;
      params.sourceIP := sourceIP;
      keyAndToken := sourceKeyAndToken;
      this.sourceAttributes := sourceAttributes;
      params.hasCarryOverAttributes := true;
      return Done;
    }
  }

  /** The issuer's parameters: the shared ones and the source token. */
  class IssuerPreIssuanceParameters {
    const params: PreIssuanceParameters
    var tokens: Option<UProveToken>
    var deviceProtected: bool

    constructor (ip: IssuerParameters)
      ensures fresh(params) && params.ip == ip && params.Lists() == Indices(None, None, None, None)
      ensures params.attributes.None? && !params.hasCarryOverAttributes
      ensures tokens.None? && !deviceProtected
    {
      params := new PreIssuanceParameters(ip);
      tokens := None;
      deviceProtected := false;
    }

    /**
     * Validate: the shared checks, then ArgumentException when an
     * attribute whose 1-based index is in K is null.
     */
    method Validate() returns (s: Status)
      modifies params
      ensures params.ip == old(params.ip) && params.attributes == old(params.attributes)
      ensures var out := ValidateOutcome(old(params.attributes).Some?, old(params.Lists()), old(params.AttributeCount()));
        && params.Lists() == out.1
        && (s.Done? <==> out.0.Done? && KnownAttributesPresent(params.attributes.value, OrEmpty(params.k)))
      ensures s.Raised? ==> s.error == ArgumentException
      ensures params.sourceIP == old(params.sourceIP) && params.ti == old(params.ti)
      ensures params.hasCarryOverAttributes == old(params.hasCarryOverAttributes)
    {
      s := params.Validate();
      if s.Raised? {
        return;
      }
      var attributes := params.attributes.value;
      var k := params.k.value;
      var i := 0;
      while i < |attributes|
        invariant 0 <= i <= |attributes|
        invariant forall j :: 0 <= j < i && j + 1 in k ==> attributes[j].Some?
      {
        if i + 1 in k && attributes[i].None? {
          return Raised(ArgumentException);
        }
        i := i + 1;
      }
    }

    /**
     * CarryOverAttribute: as for the prover, with the source token in
     * place of the key, token and attributes.
     */
    method CarryOverAttribute(sourceIndex: Option<seq<int>>, destinationIndex: Option<seq<int>>,
                              sourceIP: Option<IssuerParameters>, sourceToken: Option<UProveToken>)
      returns (s: Status)
      modifies this, params
      ensures sourceIndex.None? || destinationIndex.None? || sourceIP.None? || sourceToken.None?
        ==> s == Raised(ArgumentNullException)
      ensures s.Raised? ==> unchanged(this) && unchanged(params)
      ensures s.Raised? && s.error != ArgumentNullException ==> s.error == ArgumentException
      ensures s.Done? <==>
        && sourceIndex.Some? && destinationIndex.Some? && sourceIP.Some? && sourceToken.Some?
        && |sourceIndex.value| == |destinationIndex.value|
        && sourceToken.value.uidp == sourceIP.value.uidP
      ensures s.Done? ==>
        && params.c == destinationIndex && params.corig == sourceIndex
        && params.sourceIP == sourceIP && tokens == sourceToken && params.hasCarryOverAttributes
        && deviceProtected == old(deviceProtected)
        && params.ip == old(params.ip) && params.attributes == old(params.attributes)
        && params.ti == old(params.ti) && params.u == old(params.u) && params.k == old(params.k)
      ensures s.Done? ==> params.c.Some? && params.corig.Some? && |params.c.value| == |params.corig.value|
    {
      if sourceIndex.None? || destinationIndex.None? || sourceIP.None? || sourceToken.None? {
        return Raised(ArgumentNullException);
      }
      if |sourceIndex.value| != |destinationIndex.value| {
        return Raised(ArgumentException);
      }
      if sourceToken.value.uidp != sourceIP.value.uidP {
        return Raised(ArgumentException);
      }
      params.c := destinationIndex;
      params.corig := sourceIndex;
      params.sourceIP := sourceIP;
      tokens := sourceToken;
      params.hasCarryOverAttributes := true;
      return Done;
    }
  }

  // ---------------------------------------------------------------------
  // The proof's responses and their serialised form

  /** No key occurs twice. */
  predicate Distinct(keys: seq<string>)
  {
    forall i, j :: 0 <= i < j < |keys| ==> keys[i] != keys[j]
  }

  /** order lists each response name exactly once: an enumeration of the dictionary. */
  ghost predicate Enumerates(order: seq<string>, responses: map<string, nat>)
  {
    && Distinct(order)
    && (forall i :: 0 <= i < |order| ==> order[i] in responses)
    && (forall name :: name in responses ==> name in order)
  }

  /** A distinct list has as many elements as its set. */
  lemma {:induction false} DistinctSize(keys: seq<string>)
    requires Distinct(keys)
    ensures |set name | name in keys| == |keys|
  {
    if keys != [] {
      var init := keys[..|keys| - 1];
      var last := keys[|keys| - 1];
      assert Distinct(init);
      DistinctSize(init);
      assert (set name | name in keys) == (set name | name in init) + {last};
      assert last !in init;
    }
  }

  /** An enumeration has one entry per response. */
  lemma EnumerationSize(order: seq<string>, responses: map<string, nat>)
    requires Enumerates(order, responses)
    ensures |order| == |responses|
  {
    DistinctSize(order);
    assert (set name | name in order) == responses.Keys;
  }

  /** The response values in the order of the names, each as text. */
  function EncodedValues(order: seq<string>, responses: map<string, nat>, toText: nat -> string): (values: seq<string>)
    requires forall i :: 0 <= i < |order| ==> order[i] in responses
    ensures |values| == |order|
    ensures forall i :: 0 <= i < |order| ==> values[i] == toText(responses[order[i]])
  {
    if order == [] then []
    else EncodedValues(order[..|order| - 1], responses, toText) + [toText(responses[order[|order| - 1]])]
  }

  /** The dictionary that adding each key with its decoded value, in order, builds. */
  function ResponsesOf(keys: seq<string>, values: seq<string>, fromText: string -> nat): map<string, nat>
    requires |keys| == |values|
  {
    if keys == [] then map[]
    else
      var n := |keys| - 1;
      ResponsesOf(keys[..n], values[..n], fromText)[keys[n] := fromText(values[n])]
  }

  /** The keys of ResponsesOf are the keys listed. */
  lemma {:induction false} ResponsesKeys(keys: seq<string>, values: seq<string>, fromText: string -> nat)
    requires |keys| == |values|
    ensures forall name :: name in ResponsesOf(keys, values, fromText) <==> name in keys
  {
    if keys != [] {
      var n := |keys| - 1;
      ResponsesKeys(keys[..n], values[..n], fromText);
      assert keys == keys[..n] + [keys[n]];
    }
  }

  /** With distinct keys, each key maps to the decoding of its own value. */
  lemma {:induction false} ResponsesLookup(keys: seq<string>, values: seq<string>, fromText: string -> nat, i: nat)
    requires |keys| == |values| && Distinct(keys) && i < |keys|
    ensures keys[i] in ResponsesOf(keys, values, fromText)
    ensures ResponsesOf(keys, values, fromText)[keys[i]] == fromText(values[i])
  {
    ResponsesKeys(keys, values, fromText);
    var n := |keys| - 1;
    if i < n {
      ResponsesLookup(keys[..n], values[..n], fromText, i);
    }
  }

  /**
   * The length of the longest repeat-free prefix of keys: the position of
   * the first key already seen, or |keys| when there is none.
   */
  function RepeatFreeLength(keys: seq<string>): (j: nat)
    ensures j <= |keys| && Distinct(keys[..j])
    ensures j < |keys| ==> keys[j] in keys[..j]
    ensures j == |keys| <==> Distinct(keys)
  {
    if keys == [] then 0
    else
      var n := |keys| - 1;
      var j := RepeatFreeLength(keys[..n]);
      assert keys[..n][..j] == keys[..j];
      if j < n then
        assert keys[..n][j] == keys[j];
        j
      else if keys[n] in keys[..n] then n
      else
        assert keys == keys[..n] + [keys[n]];
        |keys|
  }

  /**
   * Serialising then deserialising the responses gives them back, provided
   * the value text decodes to the value it encodes.
   */
  lemma ResponsesRoundTrip(order: seq<string>, responses: map<string, nat>,
                           toText: nat -> string, fromText: string -> nat)
    requires Enumerates(order, responses)
    requires forall v :: fromText(toText(v)) == v
    ensures RepeatFreeLength(order) == |order|
    ensures ResponsesOf(order, EncodedValues(order, responses, toText), fromText) == responses
  {
    var values := EncodedValues(order, responses, toText);
    var rebuilt := ResponsesOf(order, values, fromText);
    ResponsesKeys(order, values, fromText);
    forall name | name in responses
      ensures name in rebuilt && rebuilt[name] == responses[name]
    {
      var i :| 0 <= i < |order| && order[i] == name;
      ResponsesLookup(order, values, fromText, i);
    }
  }

  /**
   * The flattening in OnSerializing: a key array and a value array of one
   * entry per response, filled in the dictionary's enumeration order.
   */
  method FlattenResponses(responses: map<string, nat>, order: seq<string>, toText: nat -> string)
    returns (keys: seq<string>, values: seq<string>)
    requires Enumerates(order, responses)
    ensures keys == order && |keys| == |responses|
    ensures values == EncodedValues(order, responses, toText)
  {
    EnumerationSize(order, responses);
    var keyArray := new string[|responses|];
    var valueArray := new string[|responses|];
    var i := 0;
    while i < |order|
      invariant 0 <= i <= |order|
      invariant keyArray[..i] == order[..i]
      invariant valueArray[..i] == EncodedValues(order[..i], responses, toText)
    {
      var name := order[i];
      keyArray[i] := name;
      valueArray[i] := toText(responses[name]);
      assert order[..i + 1][..i] == order[..i];
      i := i + 1;
    }
    assert keyArray[..] == keyArray[..i] && valueArray[..] == valueArray[..i] && order[..i] == order;
    keys, values := keyArray[..], valueArray[..];
  }

  /**
   * The text conversions of the serialisation layer: group elements and
   * the challenge as bytes to text and back, and the responses' field
   * elements to text and back.
   */
  datatype TextCodec = TextCodec(
    bytesToText: seq<Byte> -> string,
    textToBytes: string -> seq<Byte>,
    zqToText: nat -> string,
    textToZq: string -> nat)

  /**
   * The pre-issuance proof as sent: h0, CGamma and Ch0 (by their
   * encodings), the challenge c and the named responses, with the text
   * fields of its serialised form.
   */
  class PreIssuanceProof {
    var h0: seq<Byte>
    var cGamma: seq<Byte>
    var ch0: seq<Byte>
    var c: seq<Byte>
    var responses: map<string, nat>
    var h0Text: Option<string>
    var cGammaText: Option<string>
    var ch0Text: Option<string>
    var cText: Option<string>
    var responsesValues: Option<seq<string>>
    var responsesKeys: Option<seq<string>>
    var deserializationStarted: bool

    constructor (h0: seq<Byte>, cGamma: seq<Byte>, ch0: seq<Byte>, c: seq<Byte>, responses: map<string, nat>)
      ensures this.h0 == h0 && this.cGamma == cGamma && this.ch0 == ch0 && this.c == c
      ensures this.responses == responses && !deserializationStarted
      ensures h0Text.None? && cGammaText.None? && ch0Text.None? && cText.None?
      ensures responsesValues.None? && responsesKeys.None?
    {
      this.h0 := h0;
      this.cGamma := cGamma;
      this.ch0 := ch0;
      this.c := c;
      this.responses := responses;
      h0Text := None;
      cGammaText := None;
      ch0Text := None;
      cText := None;
      responsesValues := None;
      responsesKeys := None;
      deserializationStarted := false;
    }

    /** GetResponse: the response stored under name; a missing one is an invalid artifact. */
    function GetResponse(name: string): (r: Result<nat>)
      reads this
      ensures r.Ok? <==> name in responses
      ensures r.Ok? ==> r.value == responses[name]
      ensures r.Err? ==> r.error == InvalidUProveArtifactException
    {
      if name in responses then Ok(responses[name]) else Err(InvalidUProveArtifactException)
    }

    /**
     * OnSerializing: the four values as text, and the responses flattened
     * into parallel key and value arrays of one entry per response, in the
     * dictionary's enumeration order.
     */
    method OnSerializing(codec: TextCodec, order: seq<string>)
      requires Enumerates(order, responses)
      modifies this
      ensures h0Text == Some(codec.bytesToText(h0)) && cGammaText == Some(codec.bytesToText(cGamma))
      ensures ch0Text == Some(codec.bytesToText(ch0)) && cText == Some(codec.bytesToText(c))
      ensures h0 == old(h0) && cGamma == old(cGamma) && ch0 == old(ch0) && c == old(c)
      ensures responses == old(responses) && deserializationStarted == old(deserializationStarted)
      ensures responsesKeys == Some(order)
      ensures responsesValues == Some(EncodedValues(order, responses, codec.zqToText))
      ensures |responsesKeys.value| == |responsesValues.value| == |responses|
    {
      var keys, values := FlattenResponses(responses, order, codec.zqToText);
      h0Text, cGammaText, ch0Text, cText := Some(codec.bytesToText(h0)), Some(codec.bytesToText(cGamma)),
        Some(codec.bytesToText(ch0)), Some(codec.bytesToText(c));
      responsesKeys, responsesValues := Some(keys), Some(values);
    }

    /**
     * OnDeserialized: UProveSerializationException for a missing h0,
     * CGamma, Ch0, c or response array; otherwise c is decoded. Either way
     * deserialisation is marked as started.
     */
    method OnDeserialized(codec: TextCodec) returns (s: Status)
      modifies this
      ensures deserializationStarted
      ensures s.Done? <==> h0Text.Some? && cGammaText.Some? && ch0Text.Some? && cText.Some?
                           && responsesKeys.Some? && responsesValues.Some?
      ensures s.Raised? ==> s.error == UProveSerializationException && c == old(c)
      ensures s.Done? ==> c == codec.textToBytes(cText.value)
      ensures h0 == old(h0) && cGamma == old(cGamma) && ch0 == old(ch0) && responses == old(responses)
      ensures h0Text == old(h0Text) && cGammaText == old(cGammaText) && ch0Text == old(ch0Text) && cText == old(cText)
      ensures responsesKeys == old(responsesKeys) && responsesValues == old(responsesValues)
    {
      deserializationStarted := true;
      if h0Text.None? || cGammaText.None? || ch0Text.None? || cText.None? {
        return Raised(UProveSerializationException);
      }
      if responsesKeys.None? || responsesValues.None? {
        return Raised(UProveSerializationException);
      }
      c := codec.textToBytes(cText.value);
      return Done;
    }

    /**
     * FinishDeserialization: SerializationException unless deserialisation
     * was started; h0, CGamma and Ch0 are decoded; key and value arrays of
     * different lengths are a UProveSerializationException; the responses
     * are rebuilt key by key, a repeated key raising ArgumentException with
     * the keys before it added. Either way deserialisation is no longer
     * marked as started. A missing text fails in its conversion, and a
     * missing key or value array raises NullReferenceException when its
     * length is read.
     */
    method FinishDeserialization(codec: TextCodec) returns (s: Status)
      modifies this
      ensures !deserializationStarted
      ensures !old(deserializationStarted) ==> s == Raised(SerializationException) && responses == old(responses)
      ensures h0Text == old(h0Text) && cGammaText == old(cGammaText) && ch0Text == old(ch0Text) && cText == old(cText)
      ensures responsesKeys == old(responsesKeys) && responsesValues == old(responsesValues) && c == old(c)
      ensures old(deserializationStarted) && (h0Text.None? || cGammaText.None? || ch0Text.None?)
        ==> s.Raised? && responses == old(responses)
      ensures old(deserializationStarted) && h0Text.Some? && cGammaText.Some? && ch0Text.Some?
              && (responsesKeys.None? || responsesValues.None?)
        ==> s == Raised(NullReferenceException) && responses == old(responses)
      ensures old(deserializationStarted) && h0Text.Some? && cGammaText.Some? && ch0Text.Some? ==>
        h0 == codec.textToBytes(h0Text.value) && cGamma == codec.textToBytes(cGammaText.value)
        && ch0 == codec.textToBytes(ch0Text.value)
      ensures old(deserializationStarted) && h0Text.Some? && cGammaText.Some? && ch0Text.Some?
              && responsesKeys.Some? && responsesValues.Some? ==>
        var keys, values := responsesKeys.value, responsesValues.value;
        && (|keys| != |values| ==> s == Raised(UProveSerializationException) && responses == old(responses))
        && (|keys| == |values| ==>
              && (s.Done? <==> Distinct(keys))
              && (s.Raised? ==> s.error == ArgumentException)
              && var j := RepeatFreeLength(keys);
                 responses == ResponsesOf(keys[..j], values[..j], codec.textToZq))
    {
      if !deserializationStarted {
        return Raised(SerializationException);
      }
      deserializationStarted := false;
      if h0Text.None? || cGammaText.None? || ch0Text.None? || responsesKeys.None? || responsesValues.None? {
        if h0Text.Some? {
          h0 := codec.textToBytes(h0Text.value);
          if cGammaText.Some? {
            cGamma := codec.textToBytes(cGammaText.value);
            if ch0Text.Some? {
              ch0 := codec.textToBytes(ch0Text.value);
            }
          }
        }
        return Raised(NullReferenceException);
      }
      h0 := codec.textToBytes(h0Text.value);
      cGamma := codec.textToBytes(cGammaText.value);
      ch0 := codec.textToBytes(ch0Text.value);
      var keys, values := responsesKeys.value, responsesValues.value;
      if |values| != |keys| {
        return Raised(UProveSerializationException);
      }
      s := AddResponses(codec.textToZq, keys, values);
    }

    /**
     * The loop of FinishDeserialization: each key is added with its decoded
     * value to a new dictionary, and Dictionary.Add raises
     * ArgumentException at the first key already present.
     */
    method AddResponses(fromText: string -> nat, keys: seq<string>, values: seq<string>) returns (s: Status)
      requires |keys| == |values|
      modifies this
      ensures s.Done? <==> Distinct(keys)
      ensures s.Raised? ==> s.error == ArgumentException
      ensures responses == ResponsesOf(keys[..RepeatFreeLength(keys)], values[..RepeatFreeLength(keys)], fromText)
      ensures h0 == old(h0) && cGamma == old(cGamma) && ch0 == old(ch0) && c == old(c)
      ensures h0Text == old(h0Text) && cGammaText == old(cGammaText) && ch0Text == old(ch0Text) && cText == old(cText)
      ensures responsesKeys == old(responsesKeys) && responsesValues == old(responsesValues)
      ensures deserializationStarted == old(deserializationStarted)
    {
      responses := map[];
      var i := 0;
      while i < |keys|
        invariant 0 <= i <= |keys|
        invariant Distinct(keys[..i])
        invariant responses == ResponsesOf(keys[..i], values[..i], fromText)
        invariant h0 == old(h0) && cGamma == old(cGamma) && ch0 == old(ch0) && c == old(c)
        invariant h0Text == old(h0Text) && cGammaText == old(cGammaText) && ch0Text == old(ch0Text) && cText == old(cText)
        invariant responsesKeys == old(responsesKeys) && responsesValues == old(responsesValues)
        invariant deserializationStarted == old(deserializationStarted)
      {
        ResponsesKeys(keys[..i], values[..i], fromText);
        if keys[i] in responses {
          FirstRepeat(keys, i);
          return Raised(ArgumentException);
        }
        assert keys[..i + 1][..i] == keys[..i] && values[..i + 1][..i] == values[..i];
        assert Distinct(keys[..i + 1]) by {
          assert keys[..i + 1] == keys[..i] + [keys[i]];
        }
        responses := responses[keys[i] := fromText(values[i])];
        i := i + 1;
      }
      assert keys[..i] == keys && values[..i] == values;
      s := Done;
    }
  }

  /** The first repeated key is where the repeat-free prefix ends. */
  lemma {:induction false} FirstRepeat(keys: seq<string>, i: nat)
    requires i < |keys| && Distinct(keys[..i]) && keys[i] in keys[..i]
    ensures RepeatFreeLength(keys) == i && !Distinct(keys)
    decreases |keys|
  {
    var n := |keys| - 1;
    assert keys[..n][..i] == keys[..i];
    if i < n {
      assert keys[..n][i] == keys[i];
      FirstRepeat(keys[..n], i);
    }
  }
}
