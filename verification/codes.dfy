/**
 * The coder registry and coder resolution of code.go: a map from integer code to
 * classification metadata, seeded with the unknown coder at code 1; registration
 * (`Register` overwrites, `MustRegister` refuses duplicates, both refuse code 0);
 * lookup (`GetCoder`); recovery of a coder from any error (`ParseCoder`, `IsCode`);
 * and the translation of a coder into a transport status (`GRPCStatus`,
 * `GRPCCodeStatus`) that `ParseCoder` reads back.
 */
module Codes {
  import opened Wrappers
  import opened Transport
  import opened Errors

  const StatusBadRequest: int := 400
  const StatusInternalServerError: int := 500

  /**
   * A `Coder` interface value, seen through its four methods: what `Code()`,
   * `HTTPStatus()`, `String()` and `Reference()` return. Every implementation
   * (the default coder here, `ErrCode` in the example package) is one of these.
   */
  datatype Coder = Coder(Code: int, HTTPStatus: int, String: string, Reference: string)

  /** `defaultCoder`: the package's own implementation of `Coder`. */
  datatype DefaultCoder = DefaultCoder(C: int, HTTP: int, Ext: string, Ref: string) {
    function Code(): int { C }

    function String(): string { Ext }

    function Reference(): string { Ref }

    /** The HTTP status; an unset status (0) reads as 500, not 200 as the doc comment says. */
    function HTTPStatus(): (h: int)
      ensures h != 0
      ensures HTTP != 0 ==> h == HTTP
      ensures HTTP == 0 ==> h == StatusInternalServerError
    {
      if HTTP == 0 then StatusInternalServerError else HTTP
    }

    /** The interface value this coder is. */
    function AsCoder(): (c: Coder)
      ensures c.Code == C && c.String == Ext && c.Reference == Ref && c.HTTPStatus != 0
      ensures HTTP != 0 ==> c.HTTPStatus == HTTP
      ensures HTTP == 0 ==> c.HTTPStatus == StatusInternalServerError
    {
      Coder(Code(), HTTPStatus(), String(), Reference())
    }
  }

  const UnknownCoder: Coder :=
    DefaultCoder(1, StatusInternalServerError, "An internal server error occurred",
                 "http://github.com/go-leo/errors/README.md").AsCoder()
  const BindCoder: Coder :=
    DefaultCoder(2, StatusBadRequest, "Error occurred while binding the request params to the struct", "").AsCoder()
  const ValidationCoder: Coder :=
    DefaultCoder(3, StatusBadRequest, "Request params validate failed", "").AsCoder()

  /** Why a registration panics. */
  datatype PanicReason =
    | ReservedCode(message: string)
    | DuplicateCode(code: int)
    | HTTPStatusNotAllowed(message: string)

  /** The outcome of an operation that may panic. */
  datatype Outcome = Ok | Panic(reason: PanicReason)

  const RegisterZeroMessage: string :=
    "code `0` is reserved by `github.com/panda/errors` as unknownCode error code"
  const MustRegisterZeroMessage: string :=
    "code '0' is reserved by 'github.com/panda/errors' as ErrUnknown error code"

  /**
   * What holds of the registry map at every point after `init`: each coder sits
   * under its own code, code 0 is never present, and code 1 always is.
   */
  predicate WellFormed(codes: map<int, Coder>) {
    && (forall k :: k in codes ==> codes[k].Code == k)
    && 0 !in codes
    && UnknownCoder.Code in codes
  }

  /** The process-wide registry (`codes`), as an object whose map the methods update. */
  class Registry {
    var codes: map<int, Coder>

    ghost predicate Valid()
      reads this
    {
      WellFormed(codes)
    }

    /** The registry after `init`: only the unknown coder, under code 1. */
    constructor ()
      ensures Valid()
      ensures codes == map[UnknownCoder.Code := UnknownCoder]
    {
      codes := map[UnknownCoder.Code := UnknownCoder];
    }

    /** `Register`: panics on code 0; otherwise stores the coder under its code, overwriting. */
    method Register(coder: Coder) returns (o: Outcome)
      requires Valid()
      modifies this
      ensures Valid()
      ensures coder.Code == 0 ==> o == Panic(ReservedCode(RegisterZeroMessage)) && codes == old(codes)
      ensures coder.Code != 0 ==> o == Ok && codes == old(codes)[coder.Code := coder]
    {
      if coder.Code == 0 {
        return Panic(ReservedCode(RegisterZeroMessage));
      }
      codes := codes[coder.Code := coder];
      o := Ok;
    }

    /** `MustRegister`: panics on code 0 and on a code already present; otherwise inserts. */
    method MustRegister(coder: Coder) returns (o: Outcome)
      requires Valid()
      modifies this
      ensures Valid()
      ensures coder.Code == 0 ==> o == Panic(ReservedCode(MustRegisterZeroMessage))
      ensures coder.Code != 0 && coder.Code in old(codes) ==> o == Panic(DuplicateCode(coder.Code))
      ensures o.Panic? ==> codes == old(codes)
      ensures coder.Code != 0 && coder.Code !in old(codes) ==> o == Ok && codes == old(codes)[coder.Code := coder]
    {
      if coder.Code == 0 {
        return Panic(ReservedCode(MustRegisterZeroMessage));
      }
      if coder.Code in codes {
        return Panic(DuplicateCode(coder.Code));
      }
      codes := codes[coder.Code := coder];
      o := Ok;
    }
  }

  /** Because `init` registers the unknown coder, `MustRegister` of code 1 always panics. */
  method MustRegisterUnknownCodePanics(reg: Registry, coder: Coder) returns (o: Outcome)
    requires reg.Valid() && coder.Code == UnknownCoder.Code
    modifies reg
    ensures o == Panic(DuplicateCode(1)) && reg.codes == old(reg.codes)
  {
    o := reg.MustRegister(coder);
  }

  // ---------------------------------------------------------------------
  // Lookup and resolution, as functions of the registry map
  // ---------------------------------------------------------------------

  /** `GetCoder`: the registered coder, or the unknown coder when the code is absent. */
  function GetCoder(codes: map<int, Coder>, code: int): (c: Coder)
    ensures code in codes ==> c == codes[code]
    ensures code !in codes ==> c == UnknownCoder
  {
    if code in codes then codes[code] else UnknownCoder
  }

  /** In a well-formed registry the coder returned has the code asked for exactly when that code is registered. */
  lemma GetCoderCode(codes: map<int, Coder>, code: int)
    requires WellFormed(codes)
    ensures GetCoder(codes, code).Code == code <==> code in codes
    ensures code !in codes ==> GetCoder(codes, code) == UnknownCoder && GetCoder(codes, code).HTTPStatus == 500
  {
  }

  /**
   * The transport fallback of `ParseCoder`: the coder registered under the code of
   * the first `Status` detail, which is nil when that code is not registered, or
   * the unknown coder when there is no such detail.
   */
  function ParseStatus(codes: map<int, Coder>, s: GrpcStatus): (r: Option<Coder>)
    ensures FirstStatusDetail(s.details).None? ==> r == Some(UnknownCoder)
    ensures FirstStatusDetail(s.details).Some? ==>
              var d := FirstStatusDetail(s.details).value;
              r == if d.Code in codes then Some(codes[d.Code]) else None
  {
    match FirstStatusDetail(s.details)
    case None => Some(UnknownCoder)
    case Some(d) => if d.Code in codes then Some(codes[d.Code]) else None
  }

  /**
   * `ParseCoder`. Nil gives nil. When the first code node of the chain has a
   * registered code, that coder. Otherwise the transport status found in the chain
   * (`status.FromError`) decides, through `ParseStatus`; with no status, the
   * unknown coder.
   */
  function ParseCoder(codes: map<int, Coder>, err: Option<Err>): (r: Option<Coder>)
    ensures err.None? ==> r.None?
    ensures err.Some? && As(err.value, CodeKind).Some? && As(err.value, CodeKind).value.code in codes ==>
              r == Some(codes[As(err.value, CodeKind).value.code])
    ensures err.Some? && (As(err.value, CodeKind).None? || As(err.value, CodeKind).value.code !in codes) ==>
              r == if As(err.value, StatusKind).None? then Some(UnknownCoder)
                   else ParseStatus(codes, As(err.value, StatusKind).value.status)
  {
    if err.None? then None
    else
      var wc := As(err.value, CodeKind);
      if wc.Some? && wc.value.code in codes then Some(codes[wc.value.code])
      else match As(err.value, StatusKind)
        case None => Some(UnknownCoder)
        case Some(se) => ParseStatus(codes, se.status)
  }

  /**
   * `IsCode`: the resolved coder exists and has the given code. Nil is never of
   * any code, and in a well-formed registry only a registered code can hold.
   */
  function IsCode(codes: map<int, Coder>, err: Option<Err>, code: int): (b: bool)
    ensures err.None? ==> !b
    ensures WellFormed(codes) && b ==> code in codes && code != 0
  {
    var c := ParseCoder(codes, err);
    c.Some? && c.value.Code == code
  }

  /** The detail record built from a coder, with its two numbers converted to int32. */
  function StatusDetailOf(c: Coder): (d: Detail)
    ensures d.StatusDetail? && d.Ref == c.Reference
    ensures InInt32(c.Code) ==> d.Code == c.Code
    ensures InInt32(c.HTTPStatus) ==> d.Http == c.HTTPStatus
  {
    StatusDetail(Int32(c.Code), Int32(c.HTTPStatus), c.Reference)
  }

  /** The status built from a coder: its text as message and one `Status` detail. */
  function StatusOf(c: Coder): (s: GrpcStatus)
    ensures s.message == c.String && s.details == [StatusDetailOf(c)]
    ensures FirstStatusDetail(s.details) == Some(StatusDetailOf(c))
  {
    GrpcStatus(c.String, [StatusDetailOf(c)])
  }

  /**
   * The coder `GRPCStatus` sends: the one registered under the first code of the
   * chain, else the unknown coder. Unlike `ParseCoder` it never looks at a
   * transport status already in the chain.
   */
  function StatusCoder(codes: map<int, Coder>, e: Err): (c: Coder)
    ensures As(e, CodeKind).Some? && As(e, CodeKind).value.code in codes ==> c == codes[As(e, CodeKind).value.code]
    ensures !(As(e, CodeKind).Some? && As(e, CodeKind).value.code in codes) ==> c == UnknownCoder
  {
    var wc := As(e, CodeKind);
    if wc.Some? && wc.value.code in codes then codes[wc.value.code] else UnknownCoder
  }

  /**
   * `GRPCStatus`: nil for nil; otherwise the status of the coder registered under
   * the chain's first code, or of the unknown coder when there is no code or it is
   * unregistered. A transport status already on the chain is ignored.
   */
  function GRPCStatus(codes: map<int, Coder>, err: Option<Err>): (s: Option<GrpcStatus>)
    ensures s.None? <==> err.None?
    ensures err.Some? ==> s.value.details == [StatusDetailOf(StatusCoder(codes, err.value))]
    ensures err.Some? ==> s.value.message == StatusCoder(codes, err.value).String
  {
    if err.None? then None else Some(StatusOf(StatusCoder(codes, err.value)))
  }

  /** `GRPCCodeStatus`: the status of the coder registered under a code, or of the unknown coder. */
  function GRPCCodeStatus(codes: map<int, Coder>, code: int): (s: GrpcStatus)
    ensures s.details == [StatusDetailOf(GetCoder(codes, code))]
    ensures s.message == GetCoder(codes, code).String
  {
    StatusOf(GetCoder(codes, code))
  }

  // ---------------------------------------------------------------------
  // Properties of resolution
  // ---------------------------------------------------------------------

  /** A freshly coded error resolves to the coder registered under its code. */
  lemma ParseCoderNewWithCode(codes: map<int, Coder>, code: int, msg: string, st: Stack)
    requires WellFormed(codes) && code in codes
    ensures ParseCoder(codes, Some(NewWithCode(code, msg, st))) == Some(codes[code])
    ensures IsCode(codes, Some(NewWithCode(code, msg, st)), code)
  {
  }

  /** An error with no code node and no transport status anywhere in its chain resolves to the unknown coder. */
  lemma ParseCoderUncoded(codes: map<int, Coder>, e: Err)
    requires forall x :: x in Chain(e) ==> !x.CodeNode? && !x.StatusErr?
    ensures ParseCoder(codes, Some(e)) == Some(UnknownCoder)
    ensures IsCode(codes, Some(e), UnknownCoder.Code)
  {
  }

  /** Annotating with a message never changes the resolved coder. */
  lemma ParseCoderWithMessage(codes: map<int, Coder>, e: Option<Err>, msg: string)
    ensures ParseCoder(codes, WithMessage(e, msg)) == ParseCoder(codes, e)
  {
  }

  /**
   * A transport status that sits in a chain is never hidden behind a node the
   * search passes first: a status error has no `Unwrap`, so it ends the chain.
   */
  lemma {:induction false} StatusSearchFrom(e: Err, x: Err)
    requires x in Chain(e) && !x.StatusErr?
    ensures As(x, StatusKind) == As(e, StatusKind)
    decreases Size(e)
  {
    if x != e {
      var next := Unwrap(e).value;
      StatusSearchFrom(next, x);
    }
  }

  /** Re-stamping the stack never changes the resolved coder. */
  lemma ParseCoderWithStack(codes: map<int, Coder>, e: Option<Err>, st: Stack)
    ensures ParseCoder(codes, WithStack(e, st)) == ParseCoder(codes, e)
  {
    if e.Some? && As(e.value, CodeKind).None? {
      var ws := As(e.value, StackKind);
      if ws.Some? {
        StatusSearchFrom(e.value, ws.value);
      } else {
        StackNodeAs(e.value, st, StatusKind);
      }
    }
  }

  /** Wrapping with a stack and a message never changes the resolved coder. */
  lemma ParseCoderWrapStack(codes: map<int, Coder>, e: Option<Err>, msg: string, st: Stack)
    ensures ParseCoder(codes, WrapStack(e, msg, st)) == ParseCoder(codes, e)
  {
    if e.Some? && As(e.value, CodeKind).None? && As(e.value, StackKind).None? {
      StackNodeAs(MessageNode(e.value, msg), st, CodeKind);
      StackNodeAs(MessageNode(e.value, msg), st, StatusKind);
    }
  }

  /** Re-coding: the newest registered code wins, whatever the error carried before. */
  lemma ParseCoderWithCode(codes: map<int, Coder>, e: Err, code: int, msg: string, st: Stack)
    requires code in codes
    ensures ParseCoder(codes, WithCode(Some(e), code, st)) == Some(codes[code])
    ensures ParseCoder(codes, WrapCode(Some(e), code, msg, st)) == Some(codes[code])
  {
  }

  /** `WithCode` twice: the second code is the one resolved. */
  lemma ParseCoderRecode(codes: map<int, Coder>, e: Err, c1: int, c2: int, st1: Stack, st2: Stack)
    requires WellFormed(codes) && c2 in codes
    ensures ParseCoder(codes, WithCode(WithCode(Some(e), c1, st1), c2, st2)).value.Code == c2
    ensures c1 != c2 ==> !IsCode(codes, WrapC(WrapC(Some(e), c1, st1), c2, st2), c1)
  {
    ParseCoderWithCode(codes, WithCode(Some(e), c1, st1).value, c2, "", st2);
  }

  /** `IsCode` of nil is false, and message or stack layers do not change it. */
  lemma IsCodeLayers(codes: map<int, Coder>, e: Option<Err>, code: int, msg: string, st: Stack)
    ensures !IsCode(codes, None, code)
    ensures IsCode(codes, WithMessage(e, msg), code) == IsCode(codes, e, code)
    ensures IsCode(codes, WithStack(e, st), code) == IsCode(codes, e, code)
  {
    ParseCoderWithMessage(codes, e, msg);
    ParseCoderWithStack(codes, e, st);
  }

  /** On the transport fallback, an unregistered detail code gives nil, not the unknown coder. */
  lemma ParseCoderStatusUnregistered(codes: map<int, Coder>, s: GrpcStatus)
    requires FirstStatusDetail(s.details).Some? && FirstStatusDetail(s.details).value.Code !in codes
    ensures ParseCoder(codes, Some(StatusErr(s))).None?
    ensures forall code :: !IsCode(codes, Some(StatusErr(s)), code)
  {
  }

  /** A status with no `Status` detail resolves to the unknown coder. */
  lemma ParseCoderStatusWithoutDetail(codes: map<int, Coder>, s: GrpcStatus)
    requires forall i :: 0 <= i < |s.details| ==> !s.details[i].StatusDetail?
    ensures ParseCoder(codes, Some(StatusErr(s))) == Some(UnknownCoder)
  {
  }

  /**
   * Round trip through the status bridge: for an error whose first code is
   * registered (and fits in int32), parsing the status `GRPCStatus` builds gives
   * back the coder parsing the error itself gives.
   */
  lemma GRPCStatusRoundTrip(codes: map<int, Coder>, e: Err)
    requires WellFormed(codes)
    requires As(e, CodeKind).Some? && As(e, CodeKind).value.code in codes
    requires InInt32(As(e, CodeKind).value.code)
    ensures ParseCoder(codes, Some(StatusErr(GRPCStatus(codes, Some(e)).value))) == ParseCoder(codes, Some(e))
  {
    var code := As(e, CodeKind).value.code;
    assert StatusDetailOf(codes[code]).Code == code;
  }

  /** For an uncoded error the status carries code 1, which reads back as the coder registered under 1. */
  lemma GRPCStatusUncoded(codes: map<int, Coder>, e: Err)
    requires WellFormed(codes)
    requires As(e, CodeKind).None?
    ensures ParseCoder(codes, Some(StatusErr(GRPCStatus(codes, Some(e)).value))) == Some(codes[UnknownCoder.Code])
  {
  }

  /** Round trip through `GRPCCodeStatus`: a registered code that fits in int32 reads back as its coder. */
  lemma GRPCCodeStatusRoundTrip(codes: map<int, Coder>, code: int)
    requires WellFormed(codes) && code in codes && InInt32(code)
    ensures ParseCoder(codes, Some(StatusErr(GRPCCodeStatus(codes, code)))) == Some(codes[code])
    ensures IsCode(codes, Some(StatusErr(GRPCCodeStatus(codes, code))), code)
  {
    assert StatusDetailOf(codes[code]).Code == code;
  }

  /**
   * `GRPCStatus` of an error that already is a received status re-encodes it as
   * the unknown coder, although `ParseCoder` of that error reads its detail.
   */
  lemma GRPCStatusOfStatusError(codes: map<int, Coder>, s: GrpcStatus)
    requires WellFormed(codes)
    ensures GRPCStatus(codes, Some(StatusErr(s))).value.details == [StatusDetailOf(UnknownCoder)]
  {
  }

  /**
   * Registering code 1001 with HTTP 400 and text "bad id", resolving an error
   * coded with it, then the duplicate-code panic, an overwriting `Register` and
   * the zero-code panic.
   */
  method RegisteredCodeScenario(st: Stack)
  {
    var reg := new Registry();
    var c := Coder(1001, 400, "bad id", "");
    var o := reg.MustRegister(c);
    assert o == Ok;
    var err := NewWithCode(1001, "id abc", st);
    ParseCoderNewWithCode(reg.codes, 1001, "id abc", st);
    assert ParseCoder(reg.codes, Some(err)) == Some(c);
    o := reg.MustRegister(c);
    assert o == Panic(DuplicateCode(1001));
    o := reg.Register(Coder(1001, 404, "gone", ""));
    assert o == Ok && reg.codes[1001].HTTPStatus == 404;
    o := reg.Register(Coder(0, 400, "zero", ""));
    assert o.Panic?;
  }
}
