# Request dispatch of CPPWebFramework's filter chain

This project models, in Dafny, the decision and the effects of
`FilterChain::doFilter` and its helper `FilterChain::write` in
`CPPWebFramework/cwf/filterchain.cpp`. That code is the last step of request
handling in the framework.

- **Servlet registered.** The chain calls the servlet's handler for the request's
  HTTP verb (GET, POST, PUT, DELETE, OPTIONS, TRACE). Any other verb is ignored.
- **No servlet.** The request is a static file:
  - the site root forwards to the configured index page;
  - a recognised extension is served with a `Content-Type` taken from a fixed
    constant or composed from the extension;
  - the framework's own `.ini` configuration file is served only when access to
    server pages is enabled, and otherwise forwards to the 401 page;
  - any other extension sets the not-found status, adds one header and forwards
    to the 404 page.
- **`write`.** It opens `path + url`. On success it adds one header and writes the
  whole file to the body. On failure it calls `sendError(0, <error text>)`.

## Structure

- `symbols.dfy`, module `Symbols`. The constants the code compares against and
  emits come from `constants.h`, which is not part of this model. So the model
  does not invent their values: a `Constants` record carries each of them as a
  symbolic string (for the request-method, extension and content-type constants,
  a function from an enumeration to strings). `WellFormed` states the one
  assumption made about them: distinct method names and distinct extension names
  are distinct strings. `UniqueExt(c, k)` is the weaker, per-extension form: no
  other extension has `k`'s string.
- `responses.dfy`, module `Responses`. `Response` is a class whose fields the
  code updates in place: status and message, the header list in insertion order,
  the body, and the errors sent. `SetStatus`, `AddHeader`, `Write` and `SendError`
  state the whole new state. `ResponseState` is the same state as a value.
- `filterchain.dfy`, module `FilterChains`.
  - `FilterChain.Dispatch` is the pure decision. It returns an `Outcome`:
    invoke a handler, do nothing, forward, serve with a content type, or not found.
  - `VerbOutcome` is the verb chain, written as the same `if`/`else` chain.
  - `StaticOutcome` is the static-file chain. Its extension tests are the ordered
    list `TestOrder`, in the order of the source, searched by `FirstMatch`.
    `RuleFor` gives each test's content-type rule, and `RuleOutcome` builds the
    outcome from that rule. Tests that share a branch of the source's `if`/`else`
    chain stand side by side in `TestOrder`. `FirstMatchSound` proves that the
    extension found is the first one in that order whose constant matches, so the
    search picks the same branch as the chain, for any values of the constants.
  - `ServedType` is the content type of each extension, written out as a flat
    table; `StaticServesTable` proves that the chain serves every extension by it.
  - `FilterChain.Write` and `FilterChain.DoFilter` carry out the effects on a
    `Response`. `WriteEffect` and `Respond` specify them.
  - `DoFilter` returns the collaborator it hands the request to (`Call`): a
    servlet handler, a forward target, or none.

The file system is a parameter, `FileSystem`: a function from a path to
`Opened(bytes)` or `OpenFailed(errorString)`. The file manager's extension and
file name of the URL are inputs to `Dispatch` and `DoFilter`.

Two details of the code are kept as written:
- The root check compares the whole URL with the root-marker constant. It does
  not test for an empty path.
- The not-found branch adds a header literally named
  `Content-Type; charset=UTF-8`, with the value `text/html`.

## Model

| member | source | states |
|---|---|---|
| `Responses.Response.SetStatus` | CPPWebFramework/cwf/filterchain.cpp:157 | the status code and message are replaced; headers, body and errors are unchanged |
| `Responses.Response.AddHeader` | CPPWebFramework/cwf/filterchain.cpp:158 | exactly one header is appended after the existing ones, in insertion order; nothing else changes |
| `Responses.Response.Write` | CPPWebFramework/cwf/filterchain.cpp:170 | the bytes are appended to the body; nothing else changes |
| `Responses.Response.SendError` | CPPWebFramework/cwf/filterchain.cpp:174 | the error (code, message) is recorded; headers and body are unchanged |
| `FilterChains.FirstMatchSound` | CPPWebFramework/cwf/filterchain.cpp:47-145 | the extension test the chain stops at is one of the tests and its constant equals the request's extension, and no earlier test's constant does: the first accepting test wins |
| `FilterChains.FirstMatchNone` | CPPWebFramework/cwf/filterchain.cpp:47-145 | the chain falls through every test exactly when no tested constant equals the request's extension |
| `FilterChains.FilterChain.Write` | CPPWebFramework/cwf/filterchain.cpp:164-176 | the new response state is what opening `path + url` dictates: header and whole file on success, `sendError(0, text)` on failure |
| `FilterChains.FilterChain.DoFilter` | CPPWebFramework/cwf/filterchain.cpp:18-162 | the collaborator called and the new response state are those of the dispatch decision for the request |
| `FilterChains.ServletSelectsMatchingHandler` | CPPWebFramework/cwf/filterchain.cpp:20-35 | with a servlet, handler `v` is invoked, and is the one collaborator called, if and only if the request method is `v`'s constant |
| `FilterChains.ServletIgnoresUnknownVerb` | CPPWebFramework/cwf/filterchain.cpp:23-34 | with a servlet, nothing is invoked if and only if the method is none of the six verb constants |
| `FilterChains.ServletSkipsStaticFiles` | CPPWebFramework/cwf/filterchain.cpp:20-35 | with a servlet, the decision depends on the method alone, and the dispatcher reads no file and leaves the response unchanged |
| `FilterChains.RootForwardsToIndex` | CPPWebFramework/cwf/filterchain.cpp:43-46 | without a servlet, the root URL forwards to the configured index page whatever its extension |
| `FilterChains.AllExtensionsTested` | CPPWebFramework/cwf/filterchain.cpp:47-145 | every extension constant is compared by some test of the chain |
| `FilterChains.StaticMatchesTable` | CPPWebFramework/cwf/filterchain.cpp:47-154 | when no other extension shares `k`'s constant, a file with that extension gets the outcome of `k`'s own test, whatever the test order |
| `FilterChains.UnknownExtensionIsNotFound` | CPPWebFramework/cwf/filterchain.cpp:155-160 | the outcome is not-found if and only if the extension equals none of the extension constants |
| `FilterChains.RuleAgreesWithTable` | CPPWebFramework/cwf/filterchain.cpp:47-154 | each test's grouped rule gives every extension its content type from the flat per-extension table, and refuses only the configuration file while server pages are not accessible |
| `FilterChains.StaticServesTable` | CPPWebFramework/cwf/filterchain.cpp:47-154 | a file whose extension is `k`'s (unshared) constant is served with `k`'s content type: html/htm the HTML constant; css/txt/php `"text/" + ext + "; charset=UTF-8"`; png/gif/bmp `"image/" + ext`; pdf/xml/json/zip `"application/" + ext`; jpe/jpg, tiff/tif, svg/svgz, exe/msi, ai/eps/ps one shared constant per group; every other extension its own constant; `.ini` as text, except that the configuration file forwards to the 401 page when server pages are not accessible |
| `FilterChains.WriteOutcomes` | CPPWebFramework/cwf/filterchain.cpp:164-176 | on open, exactly one header and the whole file contents are added; on failure only the error `(0, text)` is recorded; the status is never touched |
| `FilterChains.NotFoundSteps` | CPPWebFramework/cwf/filterchain.cpp:155-160 | not-found sets the not-found status, appends exactly the one `Content-Type; charset=UTF-8: text/html` header, writes no body and forwards to the 404 page |
| `FilterChains.OnlyServingReadsFiles` | CPPWebFramework/cwf/filterchain.cpp:43-160 | for every outcome except serving a file, the response does not depend on the file system: no file is read before a forward or a 404 |
| `FilterChains.WellFormedExtensionsAreUnique` | CPPWebFramework/cwf/filterchain.cpp:47-145 | with distinct extension constants, no extension shares its constant with another, so the static-file lemmas hold for every extension |
| `FilterChains.ServedFileCarriesTableType` | CPPWebFramework/cwf/filterchain.cpp:47-154 | with distinct constants, a served known extension whose file opens gets exactly one new header, the content-type header with the extension's entry of the flat table as its value, and the whole file appended to the body |
| `FilterChains.ResponseAppendOnly` | CPPWebFramework/cwf/filterchain.cpp:155-176 | headers, body and errors only grow; at most one header is added, and one is added exactly when the file is served or the request is not found |

## Left out

- File I/O (`QFile::open`, `readAll`, `errorString`) is a parameter: opening either yields the whole file or an error text.
- The servlet handlers (`doGet`, `doPost`, ...) and `RequestDispatcher::forward` are external and not part of this model. The model records which one is called and with which target.
- FilterChain.DoFilter: does not model what the servlet handler or the forwarded page then writes into the response; its state contract covers only the dispatcher's own writes.
- `HttpParser`, `Configuration` loading and `HttpServletResponse`'s own implementation are not part of this model. The configuration is the two values the dispatcher reads.
- `FileManager::fileExtention` and `FileManager::fileName` are not part of this model. Their results for the URL are inputs.
- The literal values of the constants in `constants.h` (and of `SC_NOT_FOUND`) are not part of this model. They are symbolic.
- Qt string encodings (`QString` vs `QByteArray`, `toLatin1`) are not modelled: all text is a plain string.
- The socket and event-loop layer and any threading around the call are outside this file.
