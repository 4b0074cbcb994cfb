/**
 * The I2P RouterAddress structure (I2P Common Structures, "RouterAddress",
 * version 0.9.49): a 1-byte cost Integer, an 8-byte expiration Date, a String
 * naming the transport style and a Mapping of transport options, together with
 * the error the decoder recorded while reading them.
 */
module RouterAddresses {
  import opened Wrappers
  import opened CommonData

  /** The error reported for nil or empty input. */
  const NoDataError := Error("error parsing RouterAddress: no data")

  /** What `checkValid` returns: an error and whether the caller must give up. */
  datatype Validity = Validity(err: Option<Error>, exit: bool)

  /** The Go struct: four nil-able field pointers and the recorded parse error. */
  datatype RouterAddress = RouterAddress(
    cost: Option<Integer>,
    expiration: Option<Date>,
    transportStyle: Option<I2PString>,
    options: Option<Mapping>,
    parserErr: Option<Error>)
  {
    /** The cost as an integer; the Go accessor dereferences the pointer, so it must be set. */
    function Cost(c: Codecs): (n: int)
      requires cost.Some?
      ensures n == c.integerInt(cost.value)
    {
      c.integerInt(cost.value)
    }

    function Expiration(): (d: Date)
      requires expiration.Some?
      ensures expiration == Some(d)
    {
      expiration.value
    }

    function TransportStyle(): (s: I2PString)
      requires transportStyle.Some?
      ensures transportStyle == Some(s)
    {
      transportStyle.value
    }

    function Options(): (m: Mapping)
      requires options.Some?
      ensures options == Some(m)
    {
      options.value
    }

    /** The live part of `checkValid`: never an error, fatal exactly when decoding recorded one. */
    function CheckValid(): (v: Validity)
      ensures v.err == None
      ensures v.exit <==> parserErr != None
    {
      Validity(None, parserErr.Some?)
    }
  }

  /* ---------- the last-writer-wins policy for parserErr ---------- */

  /**
   * The value of a variable that starts as `init` and then goes through `writes`
   * in order: an entry `Some(e)` assigns `e`, an entry `None` is an
   * `if err != nil` guard that did not fire.
   */
  function LastWrite(init: Option<Error>, writes: seq<Option<Error>>): (w: Option<Error>)
  {
    if writes == [] then init
    else if writes[|writes| - 1].Some? then writes[|writes| - 1]
    else LastWrite(init, writes[..|writes| - 1])
  }

  /** Every element of an error list, as an unconditional write. */
  function AsWrites(errs: seq<Error>): (w: seq<Option<Error>>)
  {
    seq(|errs|, k requires 0 <= k < |errs| => Some(errs[k]))
  }

  /**
   * The writes to parserErr in source order: the cost, expiration and transport
   * style guards, one write per mapping error, and the closing guard on `err`,
   * which still holds the transport-style error.
   */
  function ParserErrWrites(costErr: Option<Error>, expirationErr: Option<Error>,
                           styleErr: Option<Error>, optionErrs: seq<Error>): (writes: seq<Option<Error>>)
  {
    [costErr, expirationErr, styleErr] + AsWrites(optionErrs) + [styleErr]
  }

  /** Three guarded writes in a row: the last one that fires wins. */
  lemma LastWriteOfThree(a: Option<Error>, b: Option<Error>, c: Option<Error>)
    ensures LastWrite(None, [a, b, c]) == if c.Some? then c else if b.Some? then b else a
  {
    assert [a, b, c][..2] == [a, b];
    assert [a, b][..1] == [a];
    assert [a][..0] == [];
    assert LastWrite(None, [a]) == a;
    assert LastWrite(None, [a, b]) == if b.Some? then b else a;
  }

  /**
   * The precedence the writes in source order amount to: the transport-style
   * error, else the last mapping error, else the expiration error, else the
   * cost error.
   */
  lemma ParserErrPrecedence(costErr: Option<Error>, expirationErr: Option<Error>,
                            styleErr: Option<Error>, optionErrs: seq<Error>)
    ensures LastWrite(None, ParserErrWrites(costErr, expirationErr, styleErr, optionErrs)) ==
      if styleErr.Some? then styleErr
      else if optionErrs != [] then Some(optionErrs[|optionErrs| - 1])
      else if expirationErr.Some? then expirationErr
      else costErr
  {
    var guards := [costErr, expirationErr, styleErr];
    var w := guards + AsWrites(optionErrs) + [styleErr];
    assert w[..|w| - 1] == guards + AsWrites(optionErrs);
    if styleErr == None && optionErrs == [] {
      assert guards + AsWrites(optionErrs) == guards;
      LastWriteOfThree(costErr, expirationErr, styleErr);
    }
  }

  /** parserErr ends up nil exactly when no step reported an error. */
  lemma ParserErrNoneIff(costErr: Option<Error>, expirationErr: Option<Error>,
                         styleErr: Option<Error>, optionErrs: seq<Error>)
    ensures LastWrite(None, ParserErrWrites(costErr, expirationErr, styleErr, optionErrs)) == None <==>
      costErr == None && expirationErr == None && styleErr == None && optionErrs == []
  {
    ParserErrPrecedence(costErr, expirationErr, styleErr, optionErrs);
  }

  /* ---------- decoding ---------- */

  /** The four decoder calls of a non-empty read, each fed the previous one's remainder. */
  datatype Trace = Trace(cost: Decoded<Integer>, expiration: Decoded<Date>,
                         style: Decoded<I2PString>, options: MappingDecoded)

  /** The cost is decoded from a one-byte copy of `data[0]`, and that copy's remainder feeds the Date decoder. */
  function Run(c: Codecs, data: seq<byte>): (t: Trace)
    requires |data| > 0
  {
    var cost := c.newInteger([data[0]], 1);
    var expiration := c.newDate(cost.remainder);
    var style := c.newI2PString(expiration.remainder);
    Trace(cost, expiration, style, c.newMapping(style.remainder))
  }

  predicate AnyStepFailed(t: Trace)
  {
    t.cost.err != None || t.expiration.err != None || t.style.err != None || t.options.errs != []
  }

  /** The three results of `ReadRouterAddress`. */
  datatype ReadResult = ReadResult(address: RouterAddress, remainder: seq<byte>, err: Option<Error>)

  /** What `ReadRouterAddress` computes for `data`. */
  function Decode(c: Codecs, data: seq<byte>): (r: ReadResult)
  {
    if |data| == 0 then
      ReadResult(RouterAddress(None, None, None, None, Some(NoDataError)), [], Some(NoDataError))
    else
      var t := Run(c, data);
      ReadResult(
        RouterAddress(t.cost.value, t.expiration.value, t.style.value, t.options.value,
                      LastWrite(None, ParserErrWrites(t.cost.err, t.expiration.err, t.style.err, t.options.errs))),
        t.options.remainder,
        t.style.err)
  }

  /**
   * Decodes a RouterAddress from `data`. Every field decoder runs, even after an
   * earlier one failed, and each failure overwrites parserErr.
   */
  method ReadRouterAddress(c: Codecs, data: seq<byte>) returns (ra: RouterAddress, remainder: seq<byte>, err: Option<Error>)
    ensures ReadResult(ra, remainder, err) == Decode(c, data)
  {
    ra := RouterAddress(None, None, None, None, None);
    remainder := [];
    err := None;
    if |data| == 0 {
      err := Some(NoDataError);
      ra := ra.(parserErr := err);
      return;
    }
    var cost := c.newInteger([data[0]], 1);
    remainder, err := cost.remainder, cost.err;
    ra := ra.(cost := cost.value);
    if err != None {
      ra := ra.(parserErr := err);
    }
    var expiration := c.newDate(remainder);
    remainder, err := expiration.remainder, expiration.err;
    ra := ra.(expiration := expiration.value);
    if err != None {
      ra := ra.(parserErr := err);
    }
    var style := c.newI2PString(remainder);
    remainder, err := style.remainder, style.err;
    ra := ra.(transportStyle := style.value);
    if err != None {
      ra := ra.(parserErr := err);
    }
    var options := c.newMapping(remainder);
    remainder := options.remainder;
    var errs := options.errs;
    ghost var guards := [cost.err, expiration.err, style.err];
    LastWriteOfThree(cost.err, expiration.err, style.err);
    assert guards + AsWrites(errs[..0]) == guards;
    for i := 0 to |errs|
      invariant ra == RouterAddress(cost.value, expiration.value, style.value, None,
                                    LastWrite(None, guards + AsWrites(errs[..i])))
    {
      assert AsWrites(errs[..i + 1]) == AsWrites(errs[..i]) + [Some(errs[i])];
      assert (guards + AsWrites(errs[..i + 1]))[..|guards| + i] == guards + AsWrites(errs[..i]);
      ra := ra.(parserErr := Some(errs[i]));
    }
    assert errs[..|errs|] == errs;
    ra := ra.(options := options.value);
    // `err` here is still the transport-style error: the loop's `err` was its own variable.
    if err != None {
      ra := ra.(parserErr := err);
    }
    assert (guards + AsWrites(errs) + [style.err])[..|guards| + |errs|] == guards + AsWrites(errs);
  }

  /** The pointer-returning wrapper: the same record, remainder and error as `ReadRouterAddress`. */
  method NewRouterAddress(c: Codecs, data: seq<byte>) returns (ra: RouterAddress, remainder: seq<byte>, err: Option<Error>)
    ensures ReadResult(ra, remainder, err) == Decode(c, data)
  {
    ra, remainder, err := ReadRouterAddress(c, data);
  }

  /* ---------- properties of decoding ---------- */

  /** Nil or empty input: the error is set and equals parserErr, no field is set, nothing remains. */
  lemma ReadEmptyInput(c: Codecs, data: seq<byte>)
    requires |data| == 0
    ensures var r := Decode(c, data);
      && r.err != None && r.err == r.address.parserErr
      && r.address.cost == None && r.address.expiration == None
      && r.address.transportStyle == None && r.address.options == None
      && r.remainder == []
  {
  }

  /**
   * Each field holds what its decoder returned, whatever the other decoders
   * reported, and the returned remainder is the Mapping decoder's.
   */
  lemma ReadKeepsEveryField(c: Codecs, data: seq<byte>)
    requires |data| > 0
    ensures var r, t := Decode(c, data), Run(c, data);
      && r.address.cost == t.cost.value
      && r.address.expiration == t.expiration.value
      && r.address.transportStyle == t.style.value
      && r.address.options == t.options.value
      && r.remainder == t.options.remainder
  {
  }

  /**
   * Whatever parserErr holds, every field a decoder produced stays inspectable:
   * the record holds it and its accessor returns it.
   */
  lemma ReadFieldsInspectable(c: Codecs, data: seq<byte>)
    requires |data| > 0
    ensures var a, t := Decode(c, data).address, Run(c, data);
      && (t.cost.value.Some? ==> a.cost.Some? && a.Cost(c) == c.integerInt(t.cost.value.value))
      && (t.expiration.value.Some? ==> a.expiration.Some? && a.Expiration() == t.expiration.value.value)
      && (t.style.value.Some? ==> a.transportStyle.Some? && a.TransportStyle() == t.style.value.value)
      && (t.options.value.Some? ==> a.options.Some? && a.Options() == t.options.value.value)
  {
  }

  /**
   * The cost is read from a one-byte buffer, so the buffer the Date decoder gets
   * and every remainder after it, including the returned one, is a suffix of the
   * fresh buffer `[data[0]]`: at most one byte, and never taken from `data[1..]`;
   * when `|data| > 2` it cannot even equal `data[1..]`.
   */
  lemma ReadStaysInFirstByte(c: Codecs, data: seq<byte>)
    requires SuffixContract(c)
    requires |data| > 0
    ensures var t := Run(c, data);
      && IsSuffix(t.cost.remainder, [data[0]])
      && IsSuffix(t.expiration.remainder, [data[0]])
      && IsSuffix(t.style.remainder, [data[0]])
      && IsSuffix(Decode(c, data).remainder, [data[0]])
      && |Decode(c, data).remainder| <= 1
  {
  }

  /** Consequently the whole result of a non-empty read depends on `data[0]` alone. */
  lemma ReadSeesOnlyFirstByte(c: Codecs, data: seq<byte>, other: seq<byte>)
    requires |data| > 0 && |other| > 0 && data[0] == other[0]
    ensures Decode(c, data) == Decode(c, other)
  {
  }

  /**
   * For non-empty input the returned error is the transport-style error alone:
   * cost, expiration and mapping errors reach only parserErr.
   */
  lemma ReadErrIsTransportStyleError(c: Codecs, data: seq<byte>)
    requires |data| > 0
    ensures var r, t := Decode(c, data), Run(c, data);
      && r.err == t.style.err
      && (r.err != None ==> r.address.parserErr == r.err)
      && (t.style.err == None && AnyStepFailed(t) ==> r.err == None && r.address.parserErr != None)
  {
    var t := Run(c, data);
    ParserErrPrecedence(t.cost.err, t.expiration.err, t.style.err, t.options.errs);
  }

  /** parserErr of a non-empty read, by precedence. */
  lemma ReadParserErr(c: Codecs, data: seq<byte>)
    requires |data| > 0
    ensures var p, t := Decode(c, data).address.parserErr, Run(c, data);
      p == if t.style.err != None then t.style.err
           else if t.options.errs != [] then Some(t.options.errs[|t.options.errs| - 1])
           else if t.expiration.err != None then t.expiration.err
           else t.cost.err
  {
    var t := Run(c, data);
    ParserErrPrecedence(t.cost.err, t.expiration.err, t.style.err, t.options.errs);
  }

  /** A read leaves parserErr set exactly when the input was empty or some decoder reported an error. */
  lemma ReadFaultIffStepFailed(c: Codecs, data: seq<byte>)
    ensures Decode(c, data).address.parserErr != None <==> |data| == 0 || AnyStepFailed(Run(c, data))
  {
    if |data| > 0 {
      var t := Run(c, data);
      ParserErrNoneIff(t.cost.err, t.expiration.err, t.style.err, t.options.errs);
    }
  }

  /** After a read, `checkValid` never errs and asks to exit exactly when some step failed. */
  lemma CheckValidAfterRead(c: Codecs, data: seq<byte>)
    ensures Decode(c, data).address.CheckValid() ==
      Validity(None, |data| == 0 || AnyStepFailed(Run(c, data)))
  {
    ReadFaultIffStepFailed(c, data);
  }

  /* ---------- encoding ---------- */

  /**
   * The bytes of a RouterAddress: the cost and expiration encodings, then the
   * transport-style payload when it can be produced. Options and parserErr play
   * no part.
   */
  function Encoding(c: Codecs, ra: RouterAddress): (bytes: seq<byte>)
    requires ra.cost.Some? && ra.expiration.Some? && ra.transportStyle.Some?
  {
    var payload := c.stringData(ra.transportStyle.value);
    c.integerBytes(ra.cost.value) + c.dateBytes(ra.expiration.value) +
      (if payload.err == None then payload.bytes else [])
  }

  /** Serialises a RouterAddress; the three pointers it dereferences must be set. */
  method Bytes(c: Codecs, ra: RouterAddress) returns (bytes: seq<byte>)
    requires ra.cost.Some? && ra.expiration.Some? && ra.transportStyle.Some?
    ensures bytes == Encoding(c, ra)
  {
    bytes := [];
    bytes := bytes + c.integerBytes(ra.cost.value);
    bytes := bytes + c.dateBytes(ra.expiration.value);
    var strData := c.stringData(ra.transportStyle.value);
    if strData.err == None {
      bytes := bytes + strData.bytes;
    }
  }

  /** Output starts with cost then expiration; the payload follows exactly when `Data()` succeeds. */
  lemma EncodingLayout(c: Codecs, ra: RouterAddress)
    requires ra.cost.Some? && ra.expiration.Some? && ra.transportStyle.Some?
    ensures var e, head := Encoding(c, ra), c.integerBytes(ra.cost.value) + c.dateBytes(ra.expiration.value);
      var payload := c.stringData(ra.transportStyle.value);
      && |head| <= |e| && e[..|head|] == head
      && e[|head|..] == (if payload.err == None then payload.bytes else [])
  {
  }

  /** Neither the options nor parserErr affect the output. */
  lemma EncodingIgnoresOptionsAndParserErr(c: Codecs, ra: RouterAddress, options: Option<Mapping>, parserErr: Option<Error>)
    requires ra.cost.Some? && ra.expiration.Some? && ra.transportStyle.Some?
    ensures Encoding(c, ra.(options := options, parserErr := parserErr)) == Encoding(c, ra)
  {
  }
}
