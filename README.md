# RouterAddress decoder and encoder (go-i2p)

This project models the `router_address` package of go-i2p. The package implements the
RouterAddress structure of the I2P Common Structures specification ("RouterAddress",
version 0.9.49). On the wire a RouterAddress is:

- a 1-byte cost `Integer`;
- an 8-byte expiration `Date` (all zeros means it never expires);
- a `String` naming the transport style;
- a `Mapping` of transport options.

Files:

- `wrappers.dfy`: `Option`, which stands in for Go's nil-able pointers and `error` values.
- `data.dfy` (module `CommonData`): the field codecs of package `data`. The value types
  `Integer`, `Date`, `I2PString` and `Mapping` are abstract. The codecs are function values
  collected in a `Codecs` record: `NewInteger`, `NewDate`, `NewI2PString`, `NewMapping`,
  `Int()`, `Integer.Bytes()`, `Date.Bytes()` and `I2PString.Data()`. Every decoder
  returns a (nil-able) pointer, a remainder and an error (a list of errors for `NewMapping`).
  The only thing assumed of them is `SuffixContract`: each decoder's remainder is a suffix
  of its input.
- `router_address.dfy` (module `RouterAddresses`): these parts:
  - the `RouterAddress` record, with its accessors and `checkValid`;
  - `ReadRouterAddress` as an imperative method;
  - `NewRouterAddress`;
  - `Bytes` as an imperative method;
  - the specification functions `Decode` and `Encoding`, with the lemmas about them.

How parserErr is modelled. `ReadRouterAddress` assigns `parserErr` many times. There is
one guarded write after each of the cost, expiration and transport-style decoders. The loop
over the mapping errors writes once per error. A last guarded write tests `err`. In Go
that `err` is the named result, last assigned by the transport-style decoder. The `err` of
the `for _, err := range errs` loop is a separate, loop-scoped variable.
`LastWrite` folds this sequence of writes. `ParserErrPrecedence` proves that the fold gives
this order: the transport-style error, else the last mapping error, else the expiration
error, else the cost error.

The cost is decoded from the one-byte slice `[]byte{data[0]}`. The Date decoder receives what
is left of that fresh buffer, never bytes taken from `data[1:]`. `ReadStaysInFirstByte` proves that every later buffer,
and the returned remainder, is a suffix of `[data[0]]`. `ReadSeesOnlyFirstByte` proves
that a non-empty read depends only on `data[0]`.

The behaviour differs from what the source's own comments suggest in these ways:

- The wire-layout comment (router_address.go:32-43) puts the Date right after the cost
  byte. The doc comment at line 137 says the bytes left after the structure are returned.
  The code instead decodes the cost from `[]byte{data[0]}` (line 146), so the remainder is
  at most one byte. `ReadStaysInFirstByte` and `ReadSeesOnlyFirstByte` state the effect.
- `Bytes` never writes the options: the append at line 86 is commented out.
- For those two reasons, decoding the output of `Bytes` does not give back the record, so no
  round-trip lemma is stated.

## Model

| member | source | states |
|---|---|---|
| RouterAddresses.ReadRouterAddress | lib/common/router_address/router_address.go:139-190 | the imperative read, including its loop over the mapping errors, returns exactly `Decode(c, data)`: the no-data error for empty input; otherwise the four decoders in order, each on the previous remainder, with parserErr given by the writes in source order |
| RouterAddresses.NewRouterAddress | lib/common/router_address/router_address.go:194-198 | gives the same record, remainder and error as ReadRouterAddress for the same input |
| RouterAddresses.ReadEmptyInput | lib/common/router_address/router_address.go:140-145 | nil or empty input: err is set and equals parserErr, all four fields are absent, the remainder is empty |
| RouterAddresses.ReadKeepsEveryField | lib/common/router_address/router_address.go:146-189 | every field holds what its decoder returned, whatever any decoder reported; the returned remainder is the Mapping decoder's |
| RouterAddresses.ReadStaysInFirstByte | lib/common/router_address/router_address.go:146-155 | with suffix-respecting codecs, the Date input, every later remainder and the returned remainder are suffixes of `[data[0]]`, so at most one byte long |
| RouterAddresses.ReadSeesOnlyFirstByte | lib/common/router_address/router_address.go:146-189 | two non-empty inputs with the same first byte decode to the same record, remainder and error |
| RouterAddresses.ReadErrIsTransportStyleError | lib/common/router_address/router_address.go:164-189 | for non-empty input the returned err is the transport-style error; when set it equals parserErr; if only cost, expiration or mapping failed, err is nil while parserErr is set |
| RouterAddresses.ReadParserErr | lib/common/router_address/router_address.go:148-188 | parserErr of a non-empty read is the transport-style error, else the last mapping error, else the expiration error, else the cost error, else nil |
| RouterAddresses.ReadFaultIffStepFailed | lib/common/router_address/router_address.go:140-188 | parserErr is set exactly when the input was empty or some decoder reported an error |
| RouterAddresses.LastWriteOfThree | lib/common/router_address/router_address.go:153-171 | three guarded writes in a row leave the last one that fired, or nil |
| RouterAddresses.ParserErrPrecedence | lib/common/router_address/router_address.go:153-188 | the writes in source order (three guards, one write per mapping error, the final guard on the transport-style err) give the five-level precedence |
| RouterAddresses.ParserErrNoneIff | lib/common/router_address/router_address.go:153-188 | those writes leave nil exactly when no step reported an error |
| RouterAddresses.RouterAddress.CheckValid | lib/common/router_address/router_address.go:113-134 | the returned error is always nil; exit is true exactly when parserErr is set |
| RouterAddresses.CheckValidAfterRead | lib/common/router_address/router_address.go:113-134 | after a read, checkValid returns (nil, true) exactly when the input was empty or some decoder failed, else (nil, false) |
| RouterAddresses.RouterAddress.Cost | lib/common/router_address/router_address.go:91-93 | the cost pointer must be set; the result is its `Int()`, which after a read equals the `Int()` of the Integer the cost decoder produced (ReadFieldsInspectable) |
| RouterAddresses.RouterAddress.Expiration | lib/common/router_address/router_address.go:96-98 | the expiration pointer must be set; after a read it returns the Date the Date decoder produced, whatever parserErr holds (ReadFieldsInspectable) |
| RouterAddresses.RouterAddress.TransportStyle | lib/common/router_address/router_address.go:101-103 | the transport-style pointer must be set; after a read it returns the String the String decoder produced, whatever parserErr holds (ReadFieldsInspectable) |
| RouterAddresses.RouterAddress.Options | lib/common/router_address/router_address.go:106-108 | the options pointer must be set; after a read it returns the Mapping the Mapping decoder produced, whatever parserErr holds (ReadFieldsInspectable) |
| RouterAddresses.ReadFieldsInspectable | lib/common/router_address/router_address.go:91-108 | after a non-empty read, each field a decoder produced is present in the record and its accessor returns it (the cost's `Int()`, the Date, the String, the Mapping), independently of parserErr, since lines 147, 156, 165 and 181 store every field unconditionally |
| RouterAddresses.Bytes | lib/common/router_address/router_address.go:74-88 | the imperative encoder, built by successive appends, returns exactly `Encoding(c, ra)` |
| RouterAddresses.EncodingLayout | lib/common/router_address/router_address.go:74-88 | the output is the cost bytes, then the expiration bytes, then the transport-style payload exactly when `Data()` reports no error, and nothing else |
| RouterAddresses.EncodingIgnoresOptionsAndParserErr | lib/common/router_address/router_address.go:74-88 | changing the options or parserErr leaves the output unchanged: options are never written and parserErr is never consulted |

## Left out

- `lib/common/data/hash.go`: not part of this model. It wraps SHA-256 and `io.Copy` and has no logic of its own.
- Internals of package `data`: byte layouts, error conditions and `Int()`/`Bytes()`/`Data()` results are abstract. Only the suffix property of each decoder's remainder is assumed.
- Logging through logrus: diagnostics only, no effect on results.
- Dead code: the commented-out size check in `checkValid`, the unused `ROUTER_ADDRESS_MIN_SIZE`, and the commented-out options serialisation in `Bytes`.
- Nil-pointer panics: the accessors and `Bytes` dereference field pointers. The model makes this a precondition that those fields are present. Runtime panics are not modelled.
- NewRouterAddress: the model returns the record by value. The Go function returns a pointer to a fresh copy, and pointer identity is not modelled.
- Go `error` identity: errors are compared by their message. `errors.New` values are compared by identity in Go.
- Nil versus empty slices: both are the empty sequence, for the input and for the returned remainder.
- Nil mapping errors: the mapping error list holds only non-nil errors. A Go `[]error` may hold a nil entry, and the loop at lines 174-180 would then write nil into parserErr; that case is not represented.
