# go-leo/errors: error chain, coder registry and coder resolution in Dafny

This project models the core of the Go package `github.com/go-leo/errors`. Call
sites use it to attach a stack snapshot, a message or a numeric error code to any
failure, and callers later recover that classification, also across an RPC boundary.

- **Errors** (`errors.dfy`, from `errors.go`) models the error chain. An error value
  is an inductive datatype. It has three leaves:
  - a plain error;
  - a third-party error that wraps another through `Unwrap` only;
  - the error a transport status becomes.

  It also has the package's three wrapper nodes, `withStack`, `withCode` and
  `withMessage`. Go's nil is `Option.None`. `errors.As` is the search for the first
  node of a kind along the `Unwrap` chain. The model keeps the `withStack.Unwrap`
  quirk exactly: it skips the embedded error when that error has its own `Unwrap`.
  `Cause` is a loop, proved against a recursive definition. The constructors
  decide, from what `errors.As` finds, whether to add a code node, a stack node or
  a message node.
- **Codes** (`codes.dfy`, from `code.go`) models the registry and resolution.
  - The registry is a class whose `map<int, Coder>` field `Register` and
    `MustRegister` update. `init` is its constructor, which seeds the unknown coder
    under code 1.
  - Lookup and resolution are functions of that map and of an error: `GetCoder`,
    `ParseCoder` with its fallback to a transport status, and `IsCode`.
  - `GRPCStatus` and `GRPCCodeStatus` build a status carrying the
    `{Code, Http, Ref}` detail. The model proves that `ParseCoder` reads it back.
- **ExampleCode** (`example_code.dfy`, from `example/code/error_code.go`) models
  the example coder `ErrCode` and its `register`. `register` checks the HTTP status
  whitelist, defaults the reference and calls `MustRegister`.
- **Transport** (`transport.dfy`) holds the transport status value, its detail
  records, Go's `int32(...)` conversion and the first-`Status`-detail search.
  **Wrappers** holds `Option`.

Modelling choices:
- A `Coder` interface value is modelled by what its four methods return:
  `Code`, `HTTPStatus`, `String` and `Reference`. `defaultCoder` and `ErrCode` are
  separate datatypes, each with its own accessors and the interface value it is
  (`AsCoder`).
- A panic is the `Panic` outcome of the method that panics. The registry is left
  unchanged in that case.
- Captured stacks are opaque tokens passed in as parameters. Formatted messages
  are opaque strings.
- `status.FromError` is modelled as an `errors.As`-style search for a status
  error along the chain.
- The `As` that `errors.go` calls is defined in a file that is not part of this
  model. It is read as the standard `errors.As`.

Where the package's comments and its code disagree, the model follows the code:
- `HTTPStatus` of both coders maps an unset status 0 to 500, not to the 200 its
  doc comment names.
- `ParseCoder` is documented to parse an error without a code as the unknown
  coder (code.go:110-112). It does not fall back to the unknown coder when a code
  node's code is unregistered. It first tries the transport status.
- On the transport path, an unregistered detail code gives nil, not the unknown
  coder that the same comment (code.go:110-112) promises.
- `WithStack` is documented to annotate its argument (errors.go:22), but on an
  uncoded error that already carries a stack it returns that stack node itself
  (errors.go:37-39). So `WithStack(WithMessage(NewWithStack("x"), "ctx"))` reads as
  "x", and the message "ctx" is dropped (`Errors.WithStackDropsOuterMessage`).

## Model

| member | source | states |
|---|---|---|
| `Transport.Int32` | code.go:168-169 | the int32 conversion lands in int32 range, keeps a value already in range, and changes a value only by a multiple of 2^32 |
| `Transport.FirstStatusDetail` | code.go:131-136 | finds a `Status` detail exactly when the list has one; the one found is in the list, and every detail before it is of another type |
| `Errors.Unwrap` | errors.go:94-100 | `withStack` unwraps to its embedded error's own `Unwrap()` when that error has one (never to the embedded error itself then), else to the embedded error; `withCode` gives its cause and `withMessage` its cause (lines 230, 267); the result is strictly smaller, so every chain ends |
| `Errors.As` | errors.go:29-39 | the node found is of the kind asked for and lies on the `Unwrap` chain; no earlier chain node has that kind; nothing is found exactly when no chain node has that kind |
| `Errors.ChainOfStackNode` | errors.go:94-100 | a stack node's chain goes on with its embedded error's chain, minus that error itself when the error has `Unwrap` |
| `Errors.StackNodeAs` | errors.go:94-100 | a stack node is transparent to a search for a code or status node, except that an embedded node of that kind which has `Unwrap` is never the one found |
| `Errors.StackOverCodeHidesCode` | errors.go:94-100 | a stack node placed directly over an uncaused code node hides that code from `errors.As` |
| `Errors.TransparentAs` | errors.go:94-100 | on an error where no stack node embeds a code or stack node, `errors.As` finds what a search stepping into every stack node finds: the quirk has no effect there |
| `Errors.ConstructorsKeepTransparent` | errors.go:10-243 | `New`, `NewWithStack`, `NewWithCode`, `WithStack`, `WrapStack`, `WithCode`, `WrapCode` and `WithMessage` build only such errors from such errors |
| `Errors.CauseOf` | errors.go:91 | the `Cause()` of `withStack` is its embedded error and that of `withMessage` its wrapped cause (line 264); the `withCode` cause is its `cause` field, which may be nil (line 227); any cause is strictly smaller |
| `Errors.ErrorText` | errors.go:86-89 | a plain or third-party error reads as its text and a `withMessage` as its own message only (line 263); a `withStack` reads as its embedded error, promoted from the embedding, which is its `Cause()`; `withCode` and status errors have no modelled text (line 224) |
| `Errors.Cause` | errors.go:297-316 | the loop returns exactly the recursive root cause of its argument |
| `Errors.RootCauseIsRoot` | errors.go:302-315 | `Cause` returns nil exactly for nil; otherwise it returns a node that has no `Cause` method or whose `Cause()` is nil |
| `Errors.RootCauseIdempotent` | errors.go:297-316 | applying `Cause` to its own result changes nothing |
| `Errors.New` | errors.go:10-12 | a plain error: no stack or code is found on it, its text is the message, and it is its own root cause |
| `Errors.NewWithStack` | errors.go:15-20 | the error is itself the stack node `errors.As` finds; there is no code; its text is the message; its root cause is the plain error |
| `Errors.WithStack` | errors.go:24-45 | nil gives nil. On a coded chain: a new code node that copies the found node's own error and code, with the argument as cause. On an uncoded chain: the first stack node of the chain, or else a fresh stack node over the argument. The result always carries a stack, and the resolved code is unchanged |
| `Errors.WithStackIdempotent` | errors.go:37-44 | on an uncoded error, `WithStack(WithStack(e))` is `WithStack(e)` |
| `Errors.WithStackReturnsFirstStack` | errors.go:37-39 | on a stacked, uncoded error, the result is the first stack node of its chain, so no new capture point is added |
| `Errors.WithStackDropsOuterMessage` | errors.go:22-44 | `WithStack` over a message layer on a stacked error returns the inner stack node, so the result reads as the inner text and the outer message is lost |
| `Errors.WrapStack` | errors.go:51-76 | nil gives nil. A coded chain gets a code node with the message as own error, the same code and the argument as cause. A stacked chain gets only a message node. Any other chain gets a stack node over a message node. An uncoded result reads as the message, and the resolved code and root cause are unchanged |
| `Errors.WithSkipDepth` | errors.go:129-133 | the option built, applied to any code node, sets that node's skip depth to the value given |
| `Errors.ApplyOption` | errors.go:129-133 | applying the option sets the node's skip depth to the option's value and changes no other field |
| `Errors.NewWithCode` | errors.go:136-142 | a code node with the message as own error and no cause; `errors.As` finds it with its own code, and it is its own root cause |
| `Errors.NewWithCodeX` | errors.go:145-157 | the same node with its skip depth set by the last `WithSkipDepth` option, or 0 when none is given |
| `Errors.WithCode` | errors.go:175-186 | nil gives nil; otherwise the node's own error and its cause are the argument, the new code is the one `errors.As` finds (newest code wins), the chain goes on with the argument, and the root cause is kept |
| `Errors.WrapC` | errors.go:161-172 | nil gives nil; otherwise a code node whose own error and cause are the argument, whose code `errors.As` finds first, and which keeps the root cause |
| `Errors.WrapCode` | errors.go:188-199 | the same as `WithCode`, except that the node's own error is the new message |
| `Errors.WithMessage` | errors.go:234-243 | nil gives nil; otherwise the text is exactly the new message, `Cause` and `Unwrap` give the argument, `errors.As` finds for every kind what it found in the argument, and the root cause is kept |
| `Codes.DefaultCoder.HTTPStatus` | code.go:61-67 | never 0: the stored status when one is set, 500 when it is 0 |
| `Codes.DefaultCoder.AsCoder` | code.go:48-72 | the interface value reports the coder's code, text and reference, and its HTTP status (500 when unset) |
| `Codes.Registry.constructor` | code.go:211-213 | after `init` the registry holds only the unknown coder, under code 1 |
| `Codes.Registry.Register` | code.go:82-91 | code 0 panics and changes nothing; otherwise the coder is stored under its code, overwriting, and no other key changes; the registry invariant is kept |
| `Codes.Registry.MustRegister` | code.go:95-108 | code 0 panics, and so does a code already present; a panic changes nothing; otherwise the coder is inserted and no other key changes |
| `Codes.MustRegisterUnknownCodePanics` | code.go:103-105 | since `init` registers code 1, `MustRegister` of code 1 always panics with the duplicate-code reason |
| `Codes.GetCoder` | code.go:194-200 | the registered coder when the code is present, the unknown coder otherwise |
| `Codes.GetCoderCode` | code.go:194-200 | in a well-formed registry the coder returned has the code asked for exactly when that code is registered; otherwise it is the unknown coder with HTTP 500 |
| `Codes.ParseStatus` | code.go:126-138 | the coder under the first `Status` detail's code, nil when that code is unregistered, the unknown coder when there is no such detail |
| `Codes.ParseCoder` | code.go:113-139 | nil gives nil. When the first code node's code is registered, that coder. Otherwise the transport status on the chain decides, and with no status the result is the unknown coder |
| `Codes.ParseCoderNewWithCode` | code.go:118-124 | an error from `NewWithCode` with a registered code resolves to that code's coder, and `IsCode` holds for that code |
| `Codes.ParseCoderUncoded` | code.go:126-129 | an error with no code node and no status on its chain resolves to the unknown coder (code 1) |
| `Codes.ParseCoderWithMessage` | example/code_test.go:15-16 | adding a message never changes the resolved coder |
| `Codes.ParseCoderWithStack` | example/code_test.go:18-19 | `WithStack` never changes the resolved coder, in any of its three cases |
| `Codes.ParseCoderWrapStack` | errors.go:51-76 | `WrapStack` never changes the resolved coder |
| `Codes.ParseCoderWithCode` | errors.go:175-199 | `WithCode`, and `WrapCode` with any message, given a registered code resolve to that code's coder, whatever the error carried before |
| `Codes.ParseCoderRecode` | example/code_test.go:21-23 | coding twice resolves to the second code, so `IsCode` for the first (different) code is false |
| `Codes.IsCode` | code.go:203-209 | nil is of no code; in a well-formed registry `IsCode` holds only for a registered, non-zero code |
| `Codes.IsCodeLayers` | code.go:203-209 | `IsCode` of nil is false, and message and stack layers do not change `IsCode` |
| `Codes.ParseCoderStatusUnregistered` | code.go:131-136 | a status whose first `Status` detail has an unregistered code resolves to nil, so `IsCode` is false for every code |
| `Codes.ParseCoderStatusWithoutDetail` | code.go:138 | a status without a `Status` detail resolves to the unknown coder |
| `Codes.StatusDetailOf` | code.go:167-171 | the detail is a `Status` record with the coder's reference, and with its code and HTTP status whenever they fit in int32 |
| `Codes.StatusOf` | code.go:166-171 | the built status has the coder's text as message and exactly one detail, the coder's `Status` record, which is therefore its first `Status` detail |
| `Codes.StatusCoder` | code.go:158-164 | the coder registered under the chain's first code, or the unknown coder |
| `Codes.GRPCStatus` | code.go:153-174 | nil exactly for nil; otherwise the message and the one detail come from the coder registered under the chain's first code, or from the unknown coder when there is no code or it is unregistered; a status already on the chain is ignored |
| `Codes.GRPCCodeStatus` | code.go:179-189 | the message and the one detail come from `GetCoder` of the code |
| `Codes.GRPCStatusRoundTrip` | errors_test.go:84 | for an error whose first code is registered and fits in int32, `ParseCoder` of the built status equals `ParseCoder` of the error, provided the coder's HTTP status does not map to the OK transport code |
| `Codes.GRPCStatusUncoded` | errors_test.go:85 | for an uncoded error the status reads back as the coder registered under code 1 |
| `Codes.GRPCCodeStatusRoundTrip` | code.go:179-189 | a registered code that fits in int32 reads back from its status as its own coder, and `IsCode` holds, provided its HTTP status does not map to the OK transport code |
| `Codes.GRPCStatusOfStatusError` | code.go:158-164 | a received status error passed to `GRPCStatus` is re-encoded as the unknown coder |
| `ExampleCode.ErrCode.HTTPStatus` | example/code/error_code.go:45-51 | never 0: the stored status, or 500 when it is 0 |
| `ExampleCode.ErrCode.AsCoder` | example/code/error_code.go:27-51 | the interface value reports the code, text and reference, and its HTTP status (500 when unset) |
| `ExampleCode.FirstReference` | example/code/error_code.go:60-63 | the first reference given, or "" when there is none |
| `ExampleCode.Register` | example/code/error_code.go:54-73 | a status outside 200, 400, 401, 403, 404 and 500 panics. Code 0 or a registered code then panics through `MustRegister`. A panic changes nothing. Otherwise the registry gains exactly `ErrCode{code, status, message, first reference}` |
| `ExampleCode.RegisterTwice` | example/code/error_code.go:72 | registering the same code twice always ends in a panic, and the second call panics with the duplicate-code reason when the first succeeded |
| `ExampleCode.RegisteredCoderResolves` | example/code/error_code.go:65-72 | an error coded with a code that went through `register` resolves to that code, its whitelisted (so non-zero) status, its message and its reference |

## Left out

- Stack capture (`callers()`, frames, the `stack` type) is not modelled. A captured stack is an opaque token passed in by the caller.
- Rendering through `Format` (`%s`, `%v`, `%+v`, `%-v`, `%q`) is not modelled. It depends on `fmt.State`, and the `withCode` and `stack` formatters are not part of this model. So `withCode.Error()` and a status error's text have no modelled value (`ErrorText` is `None` there).
- Message formatting is not modelled; messages are opaque strings. `WrapStackf`, `WithMessagef`, `WrapCodef` and the format arguments of `New`, `NewWithStack` and `NewWithCode` are the corresponding plain members applied to an already formatted message. The `%` directives that `fmt.Errorf(message)` would read inside a message are not modelled.
- `New` and `NewWithStack` build a plain error. A format containing `%w`, which would give that error an `Unwrap`, is not modelled; the `Wrapped` leaf stands for such third-party wrappers in general.
- The transport library is foreign and not modelled. This covers `status.New`, `WithDetails`, `FromError` and `Err`. `ToGRPCCode` (the HTTP-to-transport code table) is not part of this model either, so a status carries no transport code. Two behaviours that depend on that code are left out: an OK status whose details cannot be attached (a nil status), and an OK status whose error is nil.
- `Codes.GRPCStatusRoundTrip`: holds only for a coder whose HTTP status does not map to the OK transport code. The program registers a coder with HTTP status 200 (example/code/code_generated.go:11); if that maps to OK, `WithDetails` fails and `GRPCStatus` returns nil (code.go:166-171), a case the model cannot express.
- `Codes.GRPCCodeStatusRoundTrip`: the same proviso on the OK transport code applies.
- `Codes.ParseCoder`: `status.FromError` is modelled as a search for a status error along the `Unwrap` chain. A `GRPCStatus()` method on other error types, which the library would also honour, is not modelled. In particular errors_test.go:61-62 shows that `*withCode` has such a method, defined in a file that is not part of this model. So for `WithCode(StatusErr(s), c)` with `c` unregistered, the model resolves the coder of `s`'s first detail, while the program reads the status that the `withCode` node itself reports.
- The standard `errors.As` also honours an `As(any) bool` method and `Unwrap() []error`. None of the modelled node types has either, so neither is modelled.
- The mutex around the registry is not modelled; the model is sequential.
- The dynamic type and pointer identity of a `Coder` interface value are not modelled. A coder is what its four methods return.
- `BindCoder` and `ValidationCoder` are package-level variables that the package defines but never registers.
- Code generation templates, the generated `New*`/`Is*` wrappers, the example code constants, the example HTTP handler and the example service and data layers are not part of this model.
