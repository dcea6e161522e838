/**
 * The error chain of errors.go: three wrapper kinds (stack only, code with
 * stack, message only) that nest over an underlying failure, the constructors
 * that decide which wrapper to build from what the chain already holds, and
 * the two ways of walking the chain (`Cause` and Go's `Unwrap`/`errors.As`).
 *
 * A captured stack is an opaque token passed in by the caller; formatted
 * messages are opaque strings.
 */
module Errors {
  import opened Wrappers
  import opened Transport

  /** The call stack captured when a node is built (`callers()`), as an opaque token. */
  datatype Stack = Stack(token: nat)

  /** The three node kinds a caller can search for with `errors.As`. */
  datatype Kind = StackKind | CodeKind | StatusKind

  /**
   * An error value.
   * - Plain: an error from `fmt.Errorf`/`New` without `%w`: it has neither
   *   `Unwrap` nor `Cause`.
   * - Wrapped: a third-party error that wraps another through `Unwrap` only
   *   (for example `fmt.Errorf` with `%w`); it has no `Cause`.
   * - StatusErr: the error a transport status turns into (`Status.Err()`).
   * - StackNode: `withStack`, the embedded error `inner` plus a stack.
   * - CodeNode: `withCode`, its own error `err`, a `code`, an optional
   *   `cause`, a stack and `skipDepth`.
   * - MessageNode: `withMessage`, its cause `inner` plus a message.
   */
  datatype Err =
    | Plain(text: string)
    | Wrapped(text: string, inner: Err)
    | StatusErr(status: GrpcStatus)
    | StackNode(inner: Err, stack: Stack)
    | CodeNode(err: Err, code: int, cause: Option<Err>, stack: Stack, skipDepth: int)
    | MessageNode(inner: Err, msg: string)
  {
    /** Whether this node is of the type `errors.As` is asked for. */
    predicate Is(k: Kind) {
      match k
      case StackKind => StackNode?
      case CodeKind => CodeNode?
      case StatusKind => StatusErr?
    }
  }

  /** Number of nodes in an error value; it bounds every walk down a chain. */
  function Size(e: Err): nat {
    match e
    case Plain(_) => 1
    case StatusErr(_) => 1
    case Wrapped(_, inner) => 1 + Size(inner)
    case StackNode(inner, _) => 1 + Size(inner)
    case MessageNode(inner, _) => 1 + Size(inner)
    case CodeNode(own, _, None, _, _) => 1 + Size(own)
    case CodeNode(own, _, Some(c), _, _) => 1 + Size(own) + Size(c)
  }

  // ---------------------------------------------------------------------
  // Unwrap and errors.As
  // ---------------------------------------------------------------------

  /** Whether the node has an `Unwrap() error` method. */
  predicate HasUnwrap(e: Err) {
    e.Wrapped? || e.StackNode? || e.CodeNode? || e.MessageNode?
  }

  /**
   * `errors.Unwrap(e)`: the result of the node's `Unwrap` method, or nil when it
   * has none. `withCode` and `withMessage` unwrap to their cause. `withStack`
   * unwraps to what its embedded error's own `Unwrap` returns when that error has
   * one, so it skips a level, and to the embedded error otherwise.
   */
  function Unwrap(e: Err): (r: Option<Err>)
    ensures r.Some? ==> HasUnwrap(e) && Size(r.value) < Size(e)
    ensures e.CodeNode? ==> r == e.cause
    ensures e.MessageNode? || e.Wrapped? ==> r == Some(e.inner)
    ensures e.StackNode? && !HasUnwrap(e.inner) ==> r == Some(e.inner)
    ensures e.StackNode? && HasUnwrap(e.inner) ==> r == Unwrap(e.inner) && r != Some(e.inner)
  {
    match e
    case Plain(_) => None
    case StatusErr(_) => None
    case Wrapped(_, inner) => Some(inner)
    case StackNode(inner, _) => if HasUnwrap(inner) then Unwrap(inner) else Some(inner)
    case CodeNode(_, _, cause, _, _) => cause
    case MessageNode(inner, _) => Some(inner)
  }

  /** The nodes `errors.As` visits, in order: `e`, then each `Unwrap` result until nil. */
  function Chain(e: Err): (c: seq<Err>)
    ensures |c| >= 1 && c[0] == e
    ensures forall x :: x in c ==> Size(x) <= Size(e)
    decreases Size(e)
  {
    match Unwrap(e)
    case None => [e]
    case Some(next) => [e] + Chain(next)
  }

  /**
   * `errors.As(e, &target)` for a target of the given kind: the first node of
   * that kind along the chain. Sizes strictly decrease along a chain, so "every
   * larger node of the chain is of another kind" says the found node is the first.
   */
  function As(e: Err, k: Kind): (r: Option<Err>)
    ensures r.Some? ==> r.value.Is(k) && r.value in Chain(e)
    ensures r.Some? ==> forall x :: x in Chain(e) && Size(x) > Size(r.value) ==> !x.Is(k)
    ensures r.None? <==> forall x :: x in Chain(e) ==> !x.Is(k)
    decreases Size(e)
  {
    if e.Is(k) then Some(e)
    else match Unwrap(e)
      case None => None
      case Some(next) => As(next, k)
  }

  /** A node found in a chain has its whole chain inside that chain. */
  lemma {:induction false} ChainClosed(e: Err, x: Err)
    requires x in Chain(e)
    ensures forall y :: y in Chain(x) ==> y in Chain(e)
    decreases Size(e)
  {
    if x != e {
      var next := Unwrap(e).value;
      ChainClosed(next, x);
    }
  }

  /**
   * The `withStack.Unwrap` quirk at the level of chains: a stack node's chain
   * continues with its embedded error's chain, except that the embedded error
   * itself is skipped when it has an `Unwrap` method of its own.
   */
  lemma ChainOfStackNode(inner: Err, st: Stack)
    ensures Chain(StackNode(inner, st))
         == [StackNode(inner, st)] + if HasUnwrap(inner) then Chain(inner)[1..] else Chain(inner)
  {
  }

  /**
   * What the quirk means for `errors.As`: a stack node is transparent to a search
   * for any other kind, unless the node it embeds is itself of that kind and has
   * an `Unwrap` method, in which case that node is hidden from the search.
   */
  lemma StackNodeAs(inner: Err, st: Stack, k: Kind)
    requires k != StackKind
    ensures !(HasUnwrap(inner) && inner.Is(k)) ==> As(StackNode(inner, st), k) == As(inner, k)
    ensures HasUnwrap(inner) && inner.Is(k) ==> As(StackNode(inner, st), k) != Some(inner)
  {
  }

  /** A stack node built directly over a code node with no cause hides that code from `errors.As`. */
  lemma StackOverCodeHidesCode(own: Err, code: int, st0: Stack, st: Stack)
    ensures As(StackNode(CodeNode(own, code, None, st0, 0), st), CodeKind) == None
  {
  }

  /**
   * No stack node in `e` embeds a code node or a stack node directly: the only
   * shapes in which the `withStack.Unwrap` quirk could hide a node `errors.As`
   * looks for.
   */
  predicate Transparent(e: Err) {
    match e
    case Plain(_) => true
    case StatusErr(_) => true
    case Wrapped(_, inner) => Transparent(inner)
    case StackNode(inner, _) => !inner.CodeNode? && !inner.StackNode? && Transparent(inner)
    case CodeNode(own, _, cause, _, _) => Transparent(own) && (cause.Some? ==> Transparent(cause.value))
    case MessageNode(inner, _) => Transparent(inner)
  }

  /** A search that, unlike `errors.As`, steps from a stack node to the node it embeds. */
  function DirectAs(e: Err, k: Kind): Option<Err>
    decreases Size(e)
  {
    if e.Is(k) then Some(e)
    else if e.StackNode? then DirectAs(e.inner, k)
    else match Unwrap(e)
      case None => None
      case Some(next) => DirectAs(next, k)
  }

  /** On a transparent error the quirk is invisible: `errors.As` finds what the direct search finds. */
  lemma {:induction false} TransparentAs(e: Err, k: Kind)
    requires Transparent(e)
    ensures As(e, k) == DirectAs(e, k)
    decreases Size(e)
  {
    if !e.Is(k) {
      if e.StackNode? && HasUnwrap(e.inner) {
        match Unwrap(e.inner)
        case None =>
        case Some(next) => TransparentAs(next, k);
      } else if e.StackNode? {
        TransparentAs(e.inner, k);
      } else if Unwrap(e).Some? {
        TransparentAs(Unwrap(e).value, k);
      }
    }
  }

  // ---------------------------------------------------------------------
  // Error text
  // ---------------------------------------------------------------------

  /**
   * The plain `Error()` text, where this model knows it: a `withMessage` shows
   * only its own message, a `withStack` shows its embedded error's text. The text
   * of a `withCode` comes from its `Format` method and that of a status error
   * from the status library, neither of which is part of this model (None).
   */
  function ErrorText(e: Err): (r: Option<string>)
    ensures e.Plain? || e.Wrapped? ==> r == Some(e.text)
    ensures e.MessageNode? ==> r == Some(e.msg)
    ensures e.CodeNode? || e.StatusErr? ==> r.None?
    ensures e.StackNode? ==> r == ErrorText(CauseOf(e).value)
  {
    match e
    case Plain(text) => Some(text)
    case Wrapped(text, _) => Some(text)
    case StatusErr(_) => None
    case StackNode(inner, _) => ErrorText(inner)
    case CodeNode(_, _, _, _, _) => None
    case MessageNode(_, msg) => Some(msg)
  }

  // ---------------------------------------------------------------------
  // Cause
  // ---------------------------------------------------------------------

  /** Whether the node has a `Cause() error` method. */
  predicate IsCauser(e: Err) {
    e.StackNode? || e.CodeNode? || e.MessageNode?
  }

  /** The node's `Cause()`: the embedded error, the optional cause, the wrapped cause. */
  function CauseOf(e: Err): (r: Option<Err>)
    requires IsCauser(e)
    ensures r.Some? ==> Size(r.value) < Size(e)
    ensures e.CodeNode? ==> r == e.cause
    ensures !e.CodeNode? ==> r == Some(e.inner)
  {
    if e.CodeNode? then e.cause else Some(e.inner)
  }

  /** Where `Cause` stops: a node with no `Cause` method or whose `Cause()` is nil. */
  predicate IsRoot(e: Err) {
    !IsCauser(e) || CauseOf(e).None?
  }

  /** The error `Cause` returns, defined by recursion on the cause relation. */
  function RootCause(err: Option<Err>): Option<Err>
    decreases if err.Some? then Size(err.value) else 0
  {
    match err
    case None => None
    case Some(e) => if IsRoot(e) then err else RootCause(CauseOf(e))
  }

  /** `Cause(err)`: follows `Cause()` while the node has one and it is not nil. */
  method Cause(err: Option<Err>) returns (r: Option<Err>)
    ensures r == RootCause(err)
  {
    r := err;
    while r.Some?
      invariant RootCause(r) == RootCause(err)
      decreases if r.Some? then Size(r.value) else 0
    {
      if !IsCauser(r.value) {
        break;
      }
      var c := CauseOf(r.value);
      if c.None? {
        break;
      }
      r := c;
    }
  }

  /** `Cause` returns nil exactly for nil, and otherwise a node where it had to stop. */
  lemma {:induction false} RootCauseIsRoot(err: Option<Err>)
    ensures RootCause(err).None? <==> err.None?
    ensures err.Some? ==> IsRoot(RootCause(err).value)
    decreases if err.Some? then Size(err.value) else 0
  {
    if err.Some? && !IsRoot(err.value) {
      RootCauseIsRoot(CauseOf(err.value));
    }
  }

  /** Applying `Cause` twice is the same as applying it once. */
  lemma RootCauseIdempotent(err: Option<Err>)
    ensures RootCause(RootCause(err)) == RootCause(err)
  {
    RootCauseIsRoot(err);
  }

  // ---------------------------------------------------------------------
  // Constructors
  // ---------------------------------------------------------------------

  /** `New`: a plain error, with no stack and no code. */
  function New(msg: string): (r: Err)
    ensures As(r, StackKind).None? && As(r, CodeKind).None?
    ensures ErrorText(r) == Some(msg)
    ensures RootCause(Some(r)) == Some(r)
  {
    Plain(msg)
  }

  /** `NewWithStack`: a plain error under a stack node. */
  function NewWithStack(msg: string, st: Stack): (r: Err)
    ensures As(r, StackKind) == Some(r) && As(r, CodeKind).None?
    ensures ErrorText(r) == Some(msg)
    ensures RootCause(Some(r)) == Some(New(msg))
  {
    StackNode(Plain(msg), st)
  }

  /**
   * `WithStack`. Nil gives nil. When the chain holds a code node, a new code node
   * re-stamps the stack: it copies that node's own error and code and takes the
   * argument as its cause. Otherwise, when the chain holds a stack node, that node
   * is returned and no layer is added; otherwise the argument gets a stack node.
   * In every case the code `errors.As` finds is unchanged.
   */
  function WithStack(e: Option<Err>, st: Stack): (r: Option<Err>)
    ensures r.None? <==> e.None?
    ensures e.Some? && As(e.value, CodeKind).Some? ==>
              var wc := As(e.value, CodeKind).value;
              r == Some(CodeNode(wc.err, wc.code, e, st, 0))
    ensures e.Some? && As(e.value, CodeKind).None? ==>
              r.value == (if As(e.value, StackKind).Some? then As(e.value, StackKind).value else StackNode(e.value, st))
    ensures e.Some? ==> As(r.value, StackKind).Some? || r.value.CodeNode?
    ensures e.Some? ==> As(r.value, CodeKind).Some? == As(e.value, CodeKind).Some?
    ensures e.Some? && As(e.value, CodeKind).Some? ==> As(r.value, CodeKind).value.code == As(e.value, CodeKind).value.code
  {
    if e.None? then None
    else
      var wc := As(e.value, CodeKind);
      if wc.Some? then
        Some(CodeNode(wc.value.err, wc.value.code, e, st, 0))
      else
        var ws := As(e.value, StackKind);
        if ws.Some? then
          ChainClosed(e.value, ws.value);
          ws
        else
          StackNodeAs(e.value, st, CodeKind);
          Some(StackNode(e.value, st))
  }

  /**
   * `WrapStack` (and `WrapStackf`, whose message is formatted first). Nil gives
   * nil. A coded chain gets a new code node whose own error is the message, with
   * the same code and the argument as cause. Otherwise a message node is added,
   * and a stack node above it unless the chain already has a stack. The resolved
   * code and the root cause are unchanged, and an uncoded result reads as the message.
   */
  function WrapStack(e: Option<Err>, msg: string, st: Stack): (r: Option<Err>)
    ensures r.None? <==> e.None?
    ensures e.Some? && As(e.value, CodeKind).Some? ==>
              r == Some(CodeNode(Plain(msg), As(e.value, CodeKind).value.code, e, st, 0))
    ensures e.Some? && As(e.value, CodeKind).None? && As(e.value, StackKind).Some? ==>
              r == Some(MessageNode(e.value, msg))
    ensures e.Some? && As(e.value, CodeKind).None? && As(e.value, StackKind).None? ==>
              r == Some(StackNode(MessageNode(e.value, msg), st))
    ensures e.Some? ==> As(r.value, StackKind).Some? || r.value.CodeNode?
    ensures e.Some? && As(e.value, CodeKind).None? ==> As(r.value, CodeKind).None? && ErrorText(r.value) == Some(msg)
    ensures e.Some? && As(e.value, CodeKind).Some? ==> As(r.value, CodeKind).value.code == As(e.value, CodeKind).value.code
    ensures RootCause(r) == RootCause(e)
  {
    if e.None? then None
    else
      var wc := As(e.value, CodeKind);
      if wc.Some? then
        Some(CodeNode(Plain(msg), wc.value.code, e, st, 0))
      else
        var messageErr := MessageNode(e.value, msg);
        if As(e.value, StackKind).Some? then
          Some(messageErr)
        else
          assert RootCause(Some(messageErr)) == RootCause(e);
          Some(StackNode(messageErr, st))
  }

  /** An option of `NewWithCodeX`; the only one is `WithSkipDepth`. */
  datatype CodeOption = SkipDepth(depth: int)

  /** `WithSkipDepth`: the option that sets a code node's skip depth. */
  function WithSkipDepth(skipDepth: int): (o: CodeOption)
    ensures forall w: Err :: w.CodeNode? ==> ApplyOption(o, w).skipDepth == skipDepth
  {
    SkipDepth(skipDepth)
  }

  /** Applying an option to a code node changes its skip depth and nothing else. */
  function ApplyOption(opt: CodeOption, w: Err): (r: Err)
    requires w.CodeNode?
    ensures r.CodeNode? && r.skipDepth == opt.depth
    ensures r.err == w.err && r.code == w.code && r.cause == w.cause && r.stack == w.stack
  {
    w.(skipDepth := opt.depth)
  }

  /** `NewWithCode` (the format already applied): a code node with no cause, resolved to its own code. */
  function NewWithCode(code: int, msg: string, st: Stack): (r: Err)
    ensures As(r, CodeKind) == Some(r) && r.code == code
    ensures r.err == Plain(msg) && r.cause.None? && r.skipDepth == 0
    ensures RootCause(Some(r)) == Some(r)
  {
    CodeNode(Plain(msg), code, None, st, 0)
  }

  /**
   * `NewWithCodeX`: builds a code node with no cause and then applies the options
   * in order, so its skip depth is the last `WithSkipDepth` given, or 0.
   */
  method NewWithCodeX(code: int, message: string, opts: seq<CodeOption>, st: Stack) returns (w: Err)
    ensures w.CodeNode? && w.err == Plain(message) && w.code == code && w.cause.None? && w.stack == st
    ensures w.skipDepth == if |opts| == 0 then 0 else opts[|opts| - 1].depth
  {
    w := CodeNode(Plain(message), code, None, st, 0);
    for i := 0 to |opts|
      invariant w.CodeNode? && w.err == Plain(message) && w.code == code && w.cause.None? && w.stack == st
      invariant w.skipDepth == if i == 0 then 0 else opts[i - 1].depth
    {
      w := ApplyOption(opts[i], w);
    }
  }

  /**
   * `WithCode`. Nil gives nil. Otherwise a new code node whose own error and cause
   * are both the argument: the new code is the one `errors.As` finds (the newest
   * code wins), the chain continues with the argument, and the root cause is kept.
   */
  function WithCode(e: Option<Err>, code: int, st: Stack): (r: Option<Err>)
    ensures r.None? <==> e.None?
    ensures e.Some? ==> r.value.CodeNode? && r.value.err == e.value && r.value.cause == e
    ensures e.Some? ==> As(r.value, CodeKind) == r && r.value.code == code
    ensures e.Some? ==> Chain(r.value) == [r.value] + Chain(e.value)
    ensures RootCause(r) == RootCause(e)
  {
    if e.None? then None
    else Some(CodeNode(e.value, code, e, st, 0))
  }

  /** `WrapC`, the deprecated name of `WithCode`. */
  function WrapC(e: Option<Err>, code: int, st: Stack): (r: Option<Err>)
    ensures r.None? <==> e.None?
    ensures e.Some? ==> r.value.CodeNode? && r.value.err == e.value && r.value.cause == e
    ensures e.Some? ==> As(r.value, CodeKind) == r && r.value.code == code
    ensures RootCause(r) == RootCause(e)
  {
    WithCode(e, code, st)
  }

  /**
   * `WrapCode` (and `WrapCodef`, whose message is formatted first). Like
   * `WithCode`, except that the node's own error is the new message.
   */
  function WrapCode(e: Option<Err>, code: int, msg: string, st: Stack): (r: Option<Err>)
    ensures r.None? <==> e.None?
    ensures e.Some? ==> r.value.CodeNode? && r.value.err == Plain(msg) && r.value.cause == e
    ensures e.Some? ==> As(r.value, CodeKind) == r && r.value.code == code
    ensures e.Some? ==> Chain(r.value) == [r.value] + Chain(e.value)
    ensures RootCause(r) == RootCause(e)
  {
    if e.None? then None
    else Some(CodeNode(Plain(msg), code, e, st, 0))
  }

  /**
   * `WithMessage` (and `WithMessagef`, whose message is formatted first). Nil
   * gives nil. Otherwise a message node: its text is exactly the new message,
   * its cause is the argument, and `errors.As` finds what it found in the argument.
   */
  function WithMessage(e: Option<Err>, msg: string): (r: Option<Err>)
    ensures r.None? <==> e.None?
    ensures e.Some? ==> ErrorText(r.value) == Some(msg)
    ensures e.Some? ==> IsCauser(r.value) && CauseOf(r.value) == e && Unwrap(r.value) == e
    ensures e.Some? ==> forall k :: As(r.value, k) == As(e.value, k)
    ensures RootCause(r) == RootCause(e)
  {
    if e.None? then None
    else Some(MessageNode(e.value, msg))
  }

  /** Every node on the chain of a transparent error is transparent. */
  lemma {:induction false} TransparentChain(e: Err, x: Err)
    requires Transparent(e) && x in Chain(e)
    ensures Transparent(x)
    decreases Size(e)
  {
    if x != e {
      var next := Unwrap(e).value;
      if e.StackNode? && HasUnwrap(e.inner) {
        assert Transparent(e.inner);
      }
      TransparentChain(next, x);
    }
  }

  /**
   * The constructors only ever build transparent errors from transparent ones, so
   * for every error this package builds, `errors.As` (and hence code resolution)
   * sees through the `withStack.Unwrap` quirk.
   */
  lemma ConstructorsKeepTransparent(e: Option<Err>, code: int, msg: string, st: Stack)
    requires e.Some? ==> Transparent(e.value)
    ensures Transparent(New(msg)) && Transparent(NewWithStack(msg, st)) && Transparent(NewWithCode(code, msg, st))
    ensures WithStack(e, st).Some? ==> Transparent(WithStack(e, st).value)
    ensures WrapStack(e, msg, st).Some? ==> Transparent(WrapStack(e, msg, st).value)
    ensures WithCode(e, code, st).Some? ==> Transparent(WithCode(e, code, st).value)
    ensures WrapCode(e, code, msg, st).Some? ==> Transparent(WrapCode(e, code, msg, st).value)
    ensures WithMessage(e, msg).Some? ==> Transparent(WithMessage(e, msg).value)
  {
    if e.Some? {
      var wc := As(e.value, CodeKind);
      if wc.Some? {
        TransparentChain(e.value, wc.value);
      } else if As(e.value, StackKind).Some? {
        TransparentChain(e.value, As(e.value, StackKind).value);
      }
    }
  }

  /** `WithStack` adds at most one layer: on an uncoded error, a second call returns what the first did. */
  lemma WithStackIdempotent(e: Option<Err>, st1: Stack, st2: Stack)
    requires e.Some? ==> As(e.value, CodeKind).None?
    ensures WithStack(WithStack(e, st1), st2) == WithStack(e, st1)
  {
    if e.Some? {
      var r := WithStack(e, st1).value;
      assert As(r, StackKind) == Some(r);
    }
  }

  /** The stack node returned by `WithStack` on a stacked, uncoded error is the first one in its chain. */
  lemma WithStackReturnsFirstStack(e: Err, st: Stack)
    requires As(e, CodeKind).None? && As(e, StackKind).Some?
    ensures WithStack(Some(e), st).value in Chain(e)
    ensures WithStack(Some(e), st).value.StackNode?
    ensures forall x :: x in Chain(e) && Size(x) > Size(WithStack(Some(e), st).value) ==> !x.StackNode?
  {
  }

  /**
   * `WithStack` does not annotate an error that already carries a stack: it
   * returns that inner stack node, so a message added above it is dropped and
   * the result reads as the inner node's text.
   */
  lemma WithStackDropsOuterMessage(text: string, ctx: string, st0: Stack, st: Stack)
    ensures WithStack(WithMessage(Some(NewWithStack(text, st0)), ctx), st) == Some(NewWithStack(text, st0))
    ensures ErrorText(WithStack(WithMessage(Some(NewWithStack(text, st0)), ctx), st).value) == Some(text)
    ensures ErrorText(WithMessage(Some(NewWithStack(text, st0)), ctx).value) == Some(ctx)
  {
  }
}
