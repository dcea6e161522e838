/**
 * The example package's coder, `ErrCode`, and its registration helper
 * `register`: the HTTP status must be one of a fixed whitelist, the reference
 * defaults to the empty string, and the coder goes into the registry through
 * `MustRegister`, so a code can be registered this way only once.
 */
module ExampleCode {
  import opened Wrappers
  import opened Errors
  import opened Codes

  /** `ErrCode`: the example implementation of `Coder`. */
  datatype ErrCode = ErrCode(C: int, HTTP: int, Ext: string, Ref: string) {
    function Code(): int { C }

    function String(): string { Ext }

    function Reference(): string { Ref }

    /** The HTTP status; an unset status (0) reads as 500. */
    function HTTPStatus(): (h: int)
      ensures h != 0
      ensures HTTP != 0 ==> h == HTTP
      ensures HTTP == 0 ==> h == StatusInternalServerError
    {
      if HTTP == 0 then StatusInternalServerError else HTTP
    }

    /** The interface value a `*ErrCode` is. */
    function AsCoder(): (c: Coder)
      ensures c.Code == C && c.String == Ext && c.Reference == Ref && c.HTTPStatus != 0
      ensures HTTP != 0 ==> c.HTTPStatus == HTTP
      ensures HTTP == 0 ==> c.HTTPStatus == StatusInternalServerError
    {
      Coder(Code(), HTTPStatus(), String(), Reference())
    }
  }

  /** The only HTTP statuses `register` accepts. */
  const AllowedHTTPStatuses: seq<int> := [200, 400, 401, 403, 404, 500]

  const HTTPStatusNotAllowedMessage: string := "http code not in `200, 400, 401, 403, 404, 500`"

  /** The reference `register` stores: the first one given, or "" when none is. */
  function FirstReference(refs: seq<string>): (r: string)
    ensures |refs| > 0 ==> r == refs[0]
    ensures |refs| == 0 ==> r == ""
  {
    if |refs| > 0 then refs[0] else ""
  }

  /**
   * `register`: panics unless the HTTP status is whitelisted; otherwise builds an
   * `ErrCode` from the code, status, message and first reference, and hands it to
   * `MustRegister`, which panics on code 0 or a code already present.
   */
  method Register(reg: Registry, code: int, httpStatus: int, message: string, refs: seq<string>) returns (o: Outcome)
    requires reg.Valid()
    modifies reg
    ensures reg.Valid()
    ensures httpStatus !in AllowedHTTPStatuses ==> o == Panic(HTTPStatusNotAllowed(HTTPStatusNotAllowedMessage))
    ensures httpStatus in AllowedHTTPStatuses && code == 0 ==> o == Panic(ReservedCode(MustRegisterZeroMessage))
    ensures httpStatus in AllowedHTTPStatuses && code != 0 && code in old(reg.codes) ==> o == Panic(DuplicateCode(code))
    ensures o.Panic? ==> reg.codes == old(reg.codes)
    ensures httpStatus in AllowedHTTPStatuses && code != 0 && code !in old(reg.codes) ==>
              o == Ok && reg.codes == old(reg.codes)[code := ErrCode(code, httpStatus, message, FirstReference(refs)).AsCoder()]
    ensures o == Ok ==> reg.codes[code] == Coder(code, httpStatus, message, FirstReference(refs))
  {
    var found := httpStatus in AllowedHTTPStatuses;
    if !found {
      return Panic(HTTPStatusNotAllowed(HTTPStatusNotAllowedMessage));
    }
    var reference := "";
    if |refs| > 0 {
      reference := refs[0];
    }
    var coder := ErrCode(code, httpStatus, message, reference);
    o := reg.MustRegister(coder.AsCoder());
  }

  /** Registering the same code twice through `register` panics the second time and changes nothing. */
  method RegisterTwice(reg: Registry, code: int, httpStatus: int, message: string, refs: seq<string>)
    returns (first: Outcome, second: Outcome)
    requires reg.Valid()
    modifies reg
    ensures reg.Valid()
    ensures first.Panic? ==> second == first
    ensures first == Ok ==> second == Panic(DuplicateCode(code))
    ensures second.Panic?
  {
    first := Register(reg, code, httpStatus, message, refs);
    ghost var between := reg.codes;
    second := Register(reg, code, httpStatus, message, refs);
    assert first.Panic? ==> between == old(reg.codes);
  }

  /**
   * A coder that went through `register` reports a whitelisted, hence non-zero,
   * HTTP status, and an error coded with it resolves to exactly that status, text
   * and reference.
   */
  lemma RegisteredCoderResolves(codes: map<int, Coder>, code: int, httpStatus: int, message: string,
                                refs: seq<string>, msg: string, st: Stack)
    requires WellFormed(codes)
    requires code in codes && codes[code] == ErrCode(code, httpStatus, message, FirstReference(refs)).AsCoder()
    requires httpStatus in AllowedHTTPStatuses
    ensures var c := ParseCoder(codes, Some(NewWithCode(code, msg, st)));
            c.Some? && c.value.Code == code && c.value.HTTPStatus == httpStatus && c.value.HTTPStatus != 0
            && c.value.String == message && c.value.Reference == FirstReference(refs)
  {
    ParseCoderNewWithCode(codes, code, msg, st);
  }
}
