# recordbase client core in Dafny

This project models the client side of recordbase. That side connects to a
Raft-replicated record store over gRPC, and the model covers four parts of it:

- **Client construction** (`factory.dfy`). The comma-separated bootstrap
  endpoint string is split and trimmed. Each bootstrap endpoint is asked for
  the cluster configuration, in order, until one answers. The client then
  dials the single server directly, or dials every server through a
  `multi:///` load-balanced target.
- **The client facade** (`client_impl.dfy`), a `Client` class holding:
  - the handle counter;
  - the registry of cancel functions of calls in flight;
  - one-shot disposal (`Destroy`), which closes the connection and cancels
    every registered context.

  The model also covers one unary wrapper (`Get`, shape shared by all
  unary calls), the stream bridge that turns a receive stream into an event
  channel (`Search`, `Scan`, `MapRange`, `DownloadFile`), and the upload
  drain loop of `UploadFile`.
- **Per-call credentials** (`token.dfy`). The `authorization: Bearer <token>`
  metadata, and the fact that transport security is not required.
- **Go string functions** (`go_strings.dfy`). Reference definitions of
  `strings.Split` (one-character separator), `strings.Join` and
  `strings.TrimSpace` (Unicode White_Space). The factory's contracts are
  stated in terms of these.

`common.dfy` holds `Option`, `Error` and the Go `(value, error)` pair as
`Outcome`. `client_api.dfy` holds the service name and the stream event shape.

## How the outside world is modelled

- **Remote calls are parameters.** `request(endpoint)` stands for
  `requestClusterConfiguration`. `dial(addr)` and `dialLb(target, service)`
  are the errors `Dial` and `DialWithLoadBalancer` return. A unary stub's
  reply and a stream's open error are plain values. So are the outcome of each
  `Recv`, `Send` and `CloseSend`, and the point at which a reader finds its
  context cancelled.
- **Goroutines run sequentially.** Each one is a method that runs where the
  goroutine would.
- **Side effects are logged.** The ghost log `Client.effects` records every
  connection close and every context cancellation, in order.
- **The event channel consumer reads everything.** The channel is a class
  with the list of events sent and a closed flag. Sending on or closing a
  closed channel is a precondition violation, since Go panics there.

## Model

| member | source | states |
|---|---|---|
| `Token.GetRequestMetadata` | token.go:12-16 | the metadata has exactly the key "authorization", its value is "Bearer " followed by the token, and the error is nil |
| `Token.RequireTransportSecurity` | token.go:18-20 | the credential never requires transport security |
| `Token.BearerToken` | token.go:14 | reading a token back from metadata: it succeeds exactly when the value under "authorization" starts with "Bearer ", and the value is then "Bearer " plus the token read |
| `Token.MetadataRoundTrip` | token.go:12-16 | the token read back from the produced metadata is the credential's own token |
| `Token.MetadataIgnoresUris` | token.go:12 | the metadata does not depend on the request URIs |
| `Token.MetadataDistinguishesTokens` | token.go:12-16 | different tokens give different metadata |
| `GoStrings.IsSpace` | factory.go:90 | the white space `strings.TrimSpace` removes (`unicode.IsSpace`); in the Latin-1 range exactly tab, line feed, vertical tab, form feed, carriage return, space, NEL and NBSP |
| `GoStrings.TrimLeft` | factory.go:90 | the leading half of `strings.TrimSpace`: never longer than its input (the rest in `TrimLeftSpec`) |
| `GoStrings.TrimLeftSpec` | factory.go:90 | left trimming keeps a suffix, cuts off only white space, and what remains is empty or starts with a non-space |
| `GoStrings.TrimRight` | factory.go:90 | the trailing half of `strings.TrimSpace`: never longer than its input (the rest in `TrimRightSpec`) |
| `GoStrings.TrimRightSpec` | factory.go:90 | right trimming keeps a prefix, cuts off only white space, and what remains is empty or ends with a non-space |
| `GoStrings.TrimSpace` | factory.go:90 | the trimmed string neither starts nor ends with white space |
| `GoStrings.TrimSpaceInfix` | factory.go:90 | the trimmed string is a contiguous part of the input, with only white space cut off on either side |
| `GoStrings.TrimSpaceOfTrimmed` | factory.go:90 | a string already trimmed is left unchanged |
| `GoStrings.TrimSpaceIdempotent` | factory.go:90 | trimming twice is trimming once |
| `GoStrings.TrimSpaceEmpty` | factory.go:90-91 | a piece trims to the empty string exactly when it is all white space |
| `GoStrings.IndexOf` | factory.go:89 | the first position of the separator: it is there and not before |
| `GoStrings.Split` | factory.go:89 | there is always at least one piece and no piece contains the separator |
| `GoStrings.SplitPiecesFromText` | factory.go:89 | every character of every piece comes from the text split |
| `GoStrings.JoinOfSplit` | factory.go:89 | joining the pieces with the separator gives back the text |
| `GoStrings.SplitAfterPiece` | factory.go:89 | a separator-free piece followed by the separator splits off as exactly that piece |
| `GoStrings.SplitOfJoin` | factory.go:89 | splitting a join of separator-free parts gives back the parts |
| `GoStrings.Join` | factory.go:101-106 | `strings.Join`: when no part contains the separator, the joined text contains it exactly when there are at least two parts |
| `GoStrings.JoinAppend` | factory.go:101-106 | joining one more part adds one separator and that part, and no separator when it is the first |
| `Factory.ApiAddrs` | factory.go:101-105 | the servers' API addresses, one per server, in list order |
| `Factory.KeepTrimmed` | factory.go:89-94 | what is kept is no longer than the pieces, and every kept string is non-empty and trimmed |
| `Factory.KeptComesFromPiece` | factory.go:89-94 | every kept string is the trimmed form of some piece |
| `Factory.PieceIsKept` | factory.go:89-94 | every piece that does not trim to nothing is kept, in trimmed form |
| `Factory.KeepTrimmedMembers` | factory.go:89-94 | a string is kept exactly when it is non-empty and the trimmed form of some piece (both directions) |
| `Factory.KeepTrimmedOfTrimmed` | factory.go:89-94 | non-empty trimmed pieces are kept as they are, in order |
| `Factory.KeepTrimmedOfBlank` | factory.go:90-91 | pieces that are all white space leave nothing |
| `Factory.SplitAndTrimOfBlank` | factory.go:87-96 | input made of separators and white space only yields no endpoint |
| `Factory.SplitAndTrim` | factory.go:87-96 | the loop returns the trimmed non-empty pieces of the split, in order; each endpoint is non-empty and its own trimmed form |
| `Factory.FormatMultipointEndpoint` | factory.go:98-108 | "multi:///" then the API addresses joined by ',' in list order; exactly "multi:///" for no server, no comma for one server |
| `Factory.MultipointTarget` | factory.go:98-108 | the target the builder produces, "multi:///" followed by the addresses joined by ','; its contract fixes that it always starts with "multi:///", and `MultipointRoundTrip` that the rest splits back into the addresses |
| `Factory.MultipointRoundTrip` | factory.go:98-108 | with non-empty, trimmed, comma-free addresses, splitting and trimming what follows "multi:///" gives back the address list |
| `Factory.FirstConfigured` | factory.go:63-70 | the position of the first endpoint whose request succeeds: every earlier one fails, and that one succeeds unless none does |
| `Factory.FirstConfiguredAt` | factory.go:63-70 | a success preceded only by failures is the first success |
| `Factory.FirstConfiguredNone` | factory.go:63-70 | when all requests fail there is no first success |
| `Factory.FindClusterConfiguration` | factory.go:61-72 | endpoints are requested in order up to and including the first success, and no further; the first success gives its configuration and a nil error; if every request fails, the last error is returned with no configuration; no endpoints gives neither |
| `Factory.NewClient` | factory.go:19-59 | the outcome in every case: no endpoints, every request failed (last error), no server ("no raft servers found"), one server (`Dial` error or a direct client), several (`DialWithLoadBalancer` error or a load-balanced client on the multi-address target with the service name, which splits back into the addresses when they are plain) |
| `ClientImpl.EventChannel.constructor` | client_impl.go:83 | a new channel is open and empty |
| `ClientImpl.EventChannel.Send` | client_impl.go:96 | sending appends one event to an open channel |
| `ClientImpl.EventChannel.Close` | client_impl.go:89 | closing an open channel keeps what was sent |
| `ClientImpl.FirstTerminal` | client_impl.go:92-99 | the first receive outcome that ends the stream (EOF or error): every earlier one is an item |
| `ClientImpl.Entries` | client_impl.go:100 | one entry event per received item, in order |
| `ClientImpl.ReaderEvents` | client_impl.go:92-101 | what the reader loop emits: the items up to the end of the stream or the cancellation found first, then the error event if the stream ended with an error; never more events than outcomes, nor more than one past the first ending outcome |
| `ClientImpl.ReaderAtEof` | client_impl.go:92-101 | items then EOF, never cancelled: exactly the items are emitted in order, with no error event |
| `ClientImpl.ReaderAtError` | client_impl.go:92-101 | items then an error: the items in order, then one event with that error, and nothing after it |
| `ClientImpl.ReaderCancelledAtOnce` | client_impl.go:92 | a context already cancelled before the first receive emits nothing |
| `ClientImpl.ReaderEventsInOrder` | client_impl.go:92-101 | every run emits the received items in order, and only its last event may be an error event, carrying the error that ended the stream |
| `ClientImpl.ReaderCancelledIsPrefix` | client_impl.go:92-101 | what a cancelled reader emits is a prefix of what an uncancelled one emits |
| `ClientImpl.FirstSendError` | client_impl.go:183-188 | the first failing `Send`: every earlier one succeeds |
| `ClientImpl.DrainUpload` | client_impl.go:181-196 | contents are sent in order up to and including the first failing `Send`, whose error is delivered and `CloseSend` skipped; otherwise all are sent, `CloseSend` is called and its error, if any, delivered; at most one error is delivered |
| `ClientImpl.Client.Create` | client_impl.go:38-43 | a new client has counter 0, an empty registry, is not disposed, and has done nothing yet |
| `ClientImpl.Client.AddCancelFn` | client_impl.go:451-455 | the counter is incremented and the new value is the handle, larger than every registered handle; the function is stored under it and nothing else changes |
| `ClientImpl.Client.RemoveCancelFn` | client_impl.go:457-459 | that handle's entry is removed and nothing else changes; an absent handle changes nothing |
| `ClientImpl.Client.Cancel` | client_impl.go:106 | invoking a cancel function (`cancel()` at :106 and :118, `closeFn()` at :468) appends exactly that cancellation to the effects and keeps the client valid |
| `ClientImpl.Client.Get` | client_impl.go:111-122 | the stub runs with the cancel function registered under a fresh handle; the stub's reply is returned unchanged; afterwards the registry is as before and the context has been cancelled exactly once |
| `ClientImpl.Client.OpenStream` | client_impl.go:71-83 | a fresh handle is registered; if opening fails, it is removed again and the error returned with no channel; otherwise a new open, empty channel is returned with the handle still registered |
| `ClientImpl.Client.ReadStream` | client_impl.go:85-102 | the channel receives exactly the reader's events for the receive outcomes and the cancellation point, and is then closed; the handle is removed |
| `ClientImpl.Client.CancelStream` | client_impl.go:104-107 | the returned cancel callback removes the handle and cancels the context |
| `ClientImpl.Client.OpenUpload` | client_impl.go:165-179 | a fresh handle is registered; if opening fails, it is removed and the error delivered with no sink; otherwise the sink opens and the handle stays registered |
| `ClientImpl.Client.Destroy` | client_impl.go:461-475 | the first call closes the connection once, then cancels every registered context exactly once, leaving the registry as it was; later calls do nothing; the result is always nil |

## Left out

- `dial.go` (`Dial`, `DialWithLoadBalancer`, TLS and credential options) is not part of this model. Its results are parameters.
- `requestClusterConfiguration` (dial, `GetConfiguration`, close) is the parameter `request`, a function. So the same endpoint asked twice gets the same reply, and closing the bootstrap connection is not modelled.
- The `fmt.Printf` of the configuration in `NewClient` is output only and is left out.
- `NewClient` with no endpoints dereferences a nil configuration in Go, which panics. The model returns `NoConfiguration` for that case.
- The early `len(conf.ServerList) == 0` test and the unreachable `case 0` in `NewClient` give the same outcome, so they are modelled once.
- `Factory.SplitAndTrim` takes a one-character separator. The only caller passes ",". Empty and multi-character separators of `strings.Split` are not modelled.
- `ClientImpl.Client.AddCancelFn`: the handle counter is an unbounded integer. The wrap-around of the 64-bit `atomic.Int64` after 2^63 - 1 increments is not modelled.
- Concurrency is not modelled: `sync.Map`, `atomic`, `sync.Once` and goroutines are treated as sequential. Unary calls, readers and `Destroy` running at the same time are outside the model.
- `ClientImpl.Client.ReadStream`: `resultCh` is unbuffered, and the model takes its consumer to read every event. In Go, a consumer that stops reading leaves the goroutine blocked on a send forever, so the deferred `removeCancelFn` and `close(resultCh)` never run. The contract that the channel ends closed and the handle removed holds only under that assumption.
- `ClientImpl.DrainUpload`: the upload goroutine never closes `errCh`. After a clean upload nothing is delivered (`delivered == []`), and in Go a caller waiting on `<-errCh` then waits forever. The model does not capture that wait.
- Go strings are UTF-8 byte strings, while a Dafny `string` is a sequence of Unicode scalar values. Invalid UTF-8, which `strings.TrimSpace` keeps as it is, cannot be represented. The `len(s) > 0` test of `splitAndTrim` is unaffected, because a string's byte length and its character count are both zero exactly when it is empty.
- Blocking on unbuffered channels is not modelled. `UploadFile`'s open-failure path sends on `errCh` before returning it, which blocks forever in Go because nobody can read it yet. `ClientImpl.Client.OpenUpload` records that error as delivered.
- `ClientImpl.Client.OpenUpload`: the successful upload path never removes its handle, and the model keeps that behaviour. The context is cancelled only by `Destroy`.
- `ClientImpl.Client.OpenStream`: when opening a stream fails, the handle is removed but the context is never cancelled. The model keeps that behaviour: no cancellation is logged.
- `ClientImpl.Client.Destroy`: `Range` visits the registry in an unspecified order. The contract fixes only that each registered function is called exactly once.
- The other unary wrappers (`GetInfo`, `Lookup`, `Create`, `Delete`, `Update`, `DeleteFile`, `AddKeyRange`, `GetKeyCapacity`, `MapGet`, `MapPut`, `MapRemove`, `BinGet`, `BinPut`, `BinRemove`) have the shape of `ClientImpl.Client.Get`. They are not repeated.
- The stream bridges `Scan`, `MapRange` and `DownloadFile` have the shape of `Search`. The generic `OpenStream`/`ReadStream`/`CancelStream` stand for all four.
- The generated protobuf and gRPC stubs are left out, as is `cmd/main.go`. `client_api.go` contributes only the service name and the event shape.
