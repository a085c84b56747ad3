/** The request-dispatch point of the framework: with a servlet registered it calls
    the servlet's handler for the request's verb; without one it serves the URL as a
    static file, choosing the Content-Type from the file extension. */
module FilterChains {
  import opened Symbols
  import opened Responses

  /** The settings the dispatcher reads from the server configuration. */
  datatype Configuration = Configuration(indexPage: string, accessServerPages: bool)

  /** What the dispatcher reads from the request. */
  datatype Request = Request(httpMethod: string, url: string, path: string)

  /** What opening a file for reading yields: its whole contents, or the error text. */
  datatype OpenResult = Opened(contents: seq<byte>) | OpenFailed(errorString: string)

  /** The file system, seen only through opening a path. */
  type FileSystem = string -> OpenResult

  /** The single decision `doFilter` takes for one request. */
  datatype Outcome =
    | InvokeHandler(verb: Verb)   // call the servlet's handler for this verb
    | NoOp                        // servlet present, verb not one of the six
    | Forward(target: string)     // hand the request to another page
    | Serve(contentType: string)  // send the file at path + url with this Content-Type
    | NotFound                    // 404 status, an HTML header, forward to the 404 page

  /** The collaborator the dispatcher hands the request to, if any. */
  datatype Call = NoCall | HandlerCall(verb: Verb) | ForwardCall(target: string)

  datatype Option<T> = None | Some(value: T)

  /** The composed content types. */
  function TextType(ext: string): (r: string) { "text/" + ext + "; charset=UTF-8" }
  function ImageType(ext: string): (r: string) { "image/" + ext }
  function ApplicationType(ext: string): (r: string) { "application/" + ext }

  /** The header name and value the not-found branch adds. */
  const NotFoundHeader := Header("Content-Type; charset=UTF-8", "text/html")

  /** The verb chain of the servlet branch: the first verb constant equal to the
      request method wins; any other method selects nothing. */
  function VerbOutcome(c: Constants, httpMethod: string): (r: Outcome) {
    if httpMethod == c.methodName(Get) then InvokeHandler(Get)
    else if httpMethod == c.methodName(Post) then InvokeHandler(Post)
    else if httpMethod == c.methodName(Put) then InvokeHandler(Put)
    else if httpMethod == c.methodName(Delete) then InvokeHandler(Delete)
    else if httpMethod == c.methodName(Options) then InvokeHandler(Options)
    else if httpMethod == c.methodName(Trace) then InvokeHandler(Trace)
    else NoOp
  }

  // ---------------------------------------------------------------------------
  // The static-file branch.

  /** How the Content-Type is obtained for a file whose extension passed a test. */
  datatype TypeRule =
    | Fixed(mime: MimeKey)     // one fixed constant
    | ComposedText             // "text/<ext>; charset=UTF-8"
    | ComposedImage            // "image/<ext>"
    | ComposedApplication      // "application/<ext>"
    | Protected                // text, unless it is the framework's own configuration file

  /** The rule of the test that names extension `k`; extensions tested together
      share their rule. */
  function RuleFor(k: ExtKey): (r: TypeRule) {
    match k
    case Html | Htm => Fixed(TextHtmlUtf8)
    case Css | Txt | Php => ComposedText
    case Ico => Fixed(ImageMicrosoftIco)
    case Png | Gif | Bmp => ComposedImage
    case Jpe | Jpg => Fixed(ImageJpeg)
    case Tiff | Tif => Fixed(ImageTiff)
    case Svg | Svgz => Fixed(ImageSvgXml)
    case Pdf | Xml | Json | Zip => ComposedApplication
    case Mp3 => Fixed(AudioMp3)
    case Mp4 => Fixed(AudioMp4)
    case Flv => Fixed(VideoFlv)
    case Doc => Fixed(ApplicationMsword)
    case Rtf => Fixed(ApplicationRtf)
    case Xls => Fixed(ApplicationExcel)
    case Ppt => Fixed(ApplicationPowerPoint)
    case Js => Fixed(ApplicationJavascript)
    case Odt => Fixed(ApplicationOpenDocumentText)
    case Ods => Fixed(ApplicationOpenDocumentSpreadsheet)
    case Swf => Fixed(ApplicationShockwaveFlash)
    case Rar => Fixed(ApplicationRarCompressed)
    case Exe | Msi => Fixed(ApplicationMsDownload)
    case Cab => Fixed(ApplicationCabCompressed)
    case Psd => Fixed(ApplicationPhotoshop)
    case Ai | Eps | Ps => Fixed(ApplicationPostscript)
    case Ini => Protected
  }

  /** The extensions in the order the if/else chain compares them; the extensions
      of one test (`html || htm`) stand side by side, so the first extension whose
      constant equals the request's picks the same test as the chain does. */
  const TestOrder: seq<ExtKey> := [
    Html, Htm, Css, Txt, Php, Ico, Png, Gif, Bmp, Jpe, Jpg, Tiff, Tif, Svg, Svgz,
    Pdf, Xml, Json, Zip, Mp3, Mp4, Flv, Doc, Rtf, Xls, Ppt, Js, Odt, Ods, Swf,
    Rar, Exe, Msi, Cab, Psd, Ai, Eps, Ps, Ini]

  /** The first extension of `keys` whose constant equals `ext`. */
  function FirstMatch(c: Constants, ext: string, keys: seq<ExtKey>): (r: Option<ExtKey>) {
    if keys == [] then None
    else if ext == c.extName(keys[0]) then Some(keys[0])
    else FirstMatch(c, ext, keys[1..])
  }

  /** The outcome of a test with rule `rule` that accepted extension string `ext`. */
  function RuleOutcome(c: Constants, config: Configuration, rule: TypeRule, ext: string, fileName: string): (r: Outcome) {
    match rule
    case Fixed(mime) => Serve(c.mimeName(mime))
    case ComposedText => Serve(TextType(ext))
    case ComposedImage => Serve(ImageType(ext))
    case ComposedApplication => Serve(ApplicationType(ext))
    case Protected =>
      if fileName != c.cppWebIni then Serve(TextType(ext))
      else if config.accessServerPages then Serve(TextType(ext))
      else Forward(c.status401)
  }

  /** The static-file branch: the root URL first, then the extension tests in order;
      an extension no test accepts is not found. `ext` and `fileName` are what the
      file manager derives from `url`. */
  function StaticOutcome(c: Constants, config: Configuration, url: string, ext: string, fileName: string): (r: Outcome) {
    if url == c.bar then Forward(config.indexPage)
    else match FirstMatch(c, ext, TestOrder)
      case None => NotFound
      case Some(k) => RuleOutcome(c, config, RuleFor(k), ext, fileName)
  }

  /** The filter chain: whether a servlet is registered for the request's path,
      and the configuration it was built with. */
  datatype FilterChain = FilterChain(hasServlet: bool, configuration: Configuration) {

    /** The decision of `doFilter` for a request whose URL has extension `ext` and
        file name `fileName`. */
    function Dispatch(c: Constants, request: Request, ext: string, fileName: string): (r: Outcome) {
      if hasServlet then VerbOutcome(c, request.httpMethod)
      else StaticOutcome(c, configuration, request.url, ext, fileName)
    }

    /** `write`: opens the file at `path + url`; when that succeeds it adds the one
        header `(name, value)` and writes the whole file to the body, otherwise it
        reports the file's error text with code 0. */
    method Write(response: Response, fs: FileSystem, path: string, url: string, name: string, value: string)
      modifies response
      ensures response.State() == WriteEffect(old(response.State()), fs(path + url), name, value)
    {
      match fs(path + url)
      case Opened(bytes) =>
        response.AddHeader(name, value);
        response.Write(bytes);
      case OpenFailed(message) =>
        response.SendError(0, message);
    }

    /** `doFilter`: takes the decision of `Dispatch`, performs its effects on the
        response, and returns the collaborator the request is handed to. */
    method DoFilter(c: Constants, request: Request, ext: string, fileName: string,
                    response: Response, fs: FileSystem) returns (call: Call)
      modifies response
      ensures call == Delegate(c, Dispatch(c, request, ext, fileName))
      ensures response.State()
           == Respond(c, old(response.State()), Dispatch(c, request, ext, fileName), fs, request.path, request.url)
    {
      var o := Dispatch(c, request, ext, fileName);
      match o
      case InvokeHandler(verb) =>
        call := HandlerCall(verb);
      case NoOp =>
        call := NoCall;
      case Forward(target) =>
        call := ForwardCall(target);
      case Serve(contentType) =>
        Write(response, fs, request.path, request.url, c.contentTypeHeader, contentType);
        call := NoCall;
      case NotFound =>
        response.SetStatus(c.scNotFound, c.notFoundMessage);
        response.AddHeader(NotFoundHeader.name, NotFoundHeader.value);
        call := ForwardCall(c.status404);
    }
  }

  // ---------------------------------------------------------------------------
  // Effects on the response.

  /** What `write` does to the response, given what opening the file yielded. */
  function WriteEffect(s: ResponseState, result: OpenResult, name: string, value: string): (r: ResponseState) {
    match result
    case Opened(bytes) => s.(headers := s.headers + [Header(name, value)], body := s.body + bytes)
    case OpenFailed(message) => s.(errors := s.errors + [SentError(0, message)])
  }

  /** What `doFilter` itself does to the response for outcome `o`. */
  function Respond(c: Constants, s: ResponseState, o: Outcome, fs: FileSystem, path: string, url: string): (r: ResponseState) {
    match o
    case Serve(contentType) => WriteEffect(s, fs(path + url), c.contentTypeHeader, contentType)
    case NotFound =>
      s.(status := c.scNotFound, statusMessage := c.notFoundMessage, headers := s.headers + [NotFoundHeader])
    case _ => s
  }

  /** The collaborator `doFilter` hands the request to for outcome `o`. */
  function Delegate(c: Constants, o: Outcome): (r: Call) {
    match o
    case InvokeHandler(verb) => HandlerCall(verb)
    case Forward(target) => ForwardCall(target)
    case NotFound => ForwardCall(c.status404)
    case _ => NoCall
  }

  // ---------------------------------------------------------------------------
  // Properties of the servlet branch.

  /** With a servlet, the handler invoked is exactly the one whose verb constant
      equals the request method, and it is the one collaborator called. */
  lemma ServletSelectsMatchingHandler(c: Constants, chain: FilterChain, request: Request,
                                      ext: string, fileName: string, v: Verb)
    requires WellFormed(c) && chain.hasServlet
    ensures chain.Dispatch(c, request, ext, fileName) == InvokeHandler(v) <==> request.httpMethod == c.methodName(v)
    ensures Delegate(c, chain.Dispatch(c, request, ext, fileName)) == HandlerCall(v)
        <==> request.httpMethod == c.methodName(v)
  {
  }

  /** With a servlet, a method that is none of the six verbs selects nothing. */
  lemma ServletIgnoresUnknownVerb(c: Constants, chain: FilterChain, request: Request, ext: string, fileName: string)
    requires chain.hasServlet
    ensures chain.Dispatch(c, request, ext, fileName) == NoOp <==> forall v: Verb :: request.httpMethod != c.methodName(v)
    ensures Delegate(c, chain.Dispatch(c, request, ext, fileName)) == NoCall
        <==> forall v: Verb :: request.httpMethod != c.methodName(v)
  {
    if chain.Dispatch(c, request, ext, fileName) == NoOp {
      forall v: Verb ensures request.httpMethod != c.methodName(v) {
        match v
        case Get => case Post => case Put => case Delete => case Options => case Trace =>
      }
    }
  }

  /** With a servlet, no static-file logic runs: the decision depends on the method
      alone, and the dispatcher itself neither reads a file nor touches the response. */
  lemma ServletSkipsStaticFiles(c: Constants, chain: FilterChain, request: Request, ext: string, fileName: string,
                                other: Request, otherExt: string, otherName: string,
                                s: ResponseState, fs: FileSystem)
    requires chain.hasServlet && other.httpMethod == request.httpMethod
    ensures chain.Dispatch(c, request, ext, fileName) == chain.Dispatch(c, other, otherExt, otherName)
    ensures Respond(c, s, chain.Dispatch(c, request, ext, fileName), fs, request.path, request.url) == s
  {
  }

  // ---------------------------------------------------------------------------
  // Properties of the static-file branch.

  /** The root URL forwards to the index page, whatever its extension. */
  lemma RootForwardsToIndex(c: Constants, chain: FilterChain, request: Request, ext: string, fileName: string)
    requires !chain.hasServlet && request.url == c.bar
    ensures chain.Dispatch(c, request, ext, fileName) == Forward(chain.configuration.indexPage)
  {
  }

  /** What `FirstMatch` finds is one of `keys` and its constant is `ext`, and no
      extension before it in `keys` has that constant: the first test that accepts
      the extension wins, as in the chain. */
  lemma {:induction false} FirstMatchSound(c: Constants, ext: string, keys: seq<ExtKey>)
    ensures FirstMatch(c, ext, keys).Some? ==>
      FirstMatch(c, ext, keys).value in keys && c.extName(FirstMatch(c, ext, keys).value) == ext
    ensures FirstMatch(c, ext, keys).Some? ==>
      exists i :: 0 <= i < |keys| && keys[i] == FirstMatch(c, ext, keys).value &&
        forall j :: 0 <= j < i ==> c.extName(keys[j]) != ext
  {
    if keys == [] {
    } else if ext == c.extName(keys[0]) {
      assert keys[0] == FirstMatch(c, ext, keys).value;
    } else {
      var rest := keys[1..];
      FirstMatchSound(c, ext, rest);
      if FirstMatch(c, ext, rest).Some? {
        var i :| 0 <= i < |rest| && rest[i] == FirstMatch(c, ext, rest).value &&
          forall j :: 0 <= j < i ==> c.extName(rest[j]) != ext;
        forall j | 0 <= j < i + 1
          ensures c.extName(keys[j]) != ext
        {
          if j > 0 {
            assert keys[j] == rest[j - 1];
          }
        }
        assert keys[i + 1] == FirstMatch(c, ext, keys).value;
      }
    }
  }

  /** `FirstMatch` finds nothing exactly when no constant of `keys` is `ext`. */
  lemma {:induction false} FirstMatchNone(c: Constants, ext: string, keys: seq<ExtKey>)
    ensures FirstMatch(c, ext, keys).None? <==> forall j :: j in keys ==> c.extName(j) != ext
  {
    if keys != [] && ext != c.extName(keys[0]) {
      FirstMatchNone(c, ext, keys[1..]);
      assert forall j :: j in keys ==> j == keys[0] || j in keys[1..];
    }
  }

  /** Every extension constant is compared somewhere along the chain. */
  lemma AllExtensionsTested(k: ExtKey)
    ensures k in TestOrder
  {
  }

  /** When no other extension shares `k`'s constant, the order of the tests does not
      matter: a request whose extension is that constant gets the outcome of `k`'s
      own rule. */
  lemma StaticMatchesTable(c: Constants, chain: FilterChain, request: Request, k: ExtKey, fileName: string)
    requires UniqueExt(c, k) && !chain.hasServlet && request.url != c.bar
    ensures chain.Dispatch(c, request, c.extName(k), fileName)
         == RuleOutcome(c, chain.configuration, RuleFor(k), c.extName(k), fileName)
  {
    AllExtensionsTested(k);
    FirstMatchSound(c, c.extName(k), TestOrder);
    FirstMatchNone(c, c.extName(k), TestOrder);
  }

  /** An extension is answered with not-found exactly when it is none of the recognised ones. */
  lemma UnknownExtensionIsNotFound(c: Constants, chain: FilterChain, request: Request, ext: string, fileName: string)
    requires !chain.hasServlet && request.url != c.bar
    ensures chain.Dispatch(c, request, ext, fileName) == NotFound <==> forall k: ExtKey :: ext != c.extName(k)
  {
    assert chain.Dispatch(c, request, ext, fileName) == NotFound <==> FirstMatch(c, ext, TestOrder).None?;
    FirstMatchNone(c, ext, TestOrder);
    forall k: ExtKey ensures k in TestOrder {
      AllExtensionsTested(k);
    }
  }

  /** The content type each recognised extension is served with, written out
      extension by extension as a flat table, independent of the order of the tests. */
  function ServedType(c: Constants, k: ExtKey): (r: string) {
    match k
    case Html => c.mimeName(TextHtmlUtf8)
    case Htm => c.mimeName(TextHtmlUtf8)
    case Css => TextType(c.extName(Css))
    case Txt => TextType(c.extName(Txt))
    case Php => TextType(c.extName(Php))
    case Ico => c.mimeName(ImageMicrosoftIco)
    case Png => ImageType(c.extName(Png))
    case Gif => ImageType(c.extName(Gif))
    case Bmp => ImageType(c.extName(Bmp))
    case Jpe => c.mimeName(ImageJpeg)
    case Jpg => c.mimeName(ImageJpeg)
    case Tiff => c.mimeName(ImageTiff)
    case Tif => c.mimeName(ImageTiff)
    case Svg => c.mimeName(ImageSvgXml)
    case Svgz => c.mimeName(ImageSvgXml)
    case Pdf => ApplicationType(c.extName(Pdf))
    case Xml => ApplicationType(c.extName(Xml))
    case Json => ApplicationType(c.extName(Json))
    case Zip => ApplicationType(c.extName(Zip))
    case Mp3 => c.mimeName(AudioMp3)
    case Mp4 => c.mimeName(AudioMp4)
    case Flv => c.mimeName(VideoFlv)
    case Doc => c.mimeName(ApplicationMsword)
    case Rtf => c.mimeName(ApplicationRtf)
    case Xls => c.mimeName(ApplicationExcel)
    case Ppt => c.mimeName(ApplicationPowerPoint)
    case Js => c.mimeName(ApplicationJavascript)
    case Odt => c.mimeName(ApplicationOpenDocumentText)
    case Ods => c.mimeName(ApplicationOpenDocumentSpreadsheet)
    case Swf => c.mimeName(ApplicationShockwaveFlash)
    case Rar => c.mimeName(ApplicationRarCompressed)
    case Exe => c.mimeName(ApplicationMsDownload)
    case Msi => c.mimeName(ApplicationMsDownload)
    case Cab => c.mimeName(ApplicationCabCompressed)
    case Psd => c.mimeName(ApplicationPhotoshop)
    case Ai => c.mimeName(ApplicationPostscript)
    case Eps => c.mimeName(ApplicationPostscript)
    case Ps => c.mimeName(ApplicationPostscript)
    case Ini => TextType(c.extName(Ini))
  }

  /** Whether a request for a file with extension `k` and name `fileName` is refused:
      only the framework's own configuration file, and only while server pages are
      not accessible. */
  predicate Refused(c: Constants, config: Configuration, k: ExtKey, fileName: string) {
    k == Ini && fileName == c.cppWebIni && !config.accessServerPages
  }

  /** The grouped rules of the chain give every extension its entry of the flat table. */
  lemma RuleAgreesWithTable(c: Constants, config: Configuration, k: ExtKey, fileName: string)
    ensures RuleOutcome(c, config, RuleFor(k), c.extName(k), fileName)
         == if Refused(c, config, k, fileName) then Forward(c.status401) else Serve(ServedType(c, k))
  {
  }

  /** A recognised extension whose constant no other extension shares is served with
      its content type from the flat table, except that the configuration file is
      forwarded to the 401 page when server pages are not accessible. */
  lemma StaticServesTable(c: Constants, chain: FilterChain, request: Request, k: ExtKey, fileName: string)
    requires UniqueExt(c, k) && !chain.hasServlet && request.url != c.bar
    ensures chain.Dispatch(c, request, c.extName(k), fileName)
         == if Refused(c, chain.configuration, k, fileName) then Forward(c.status401) else Serve(ServedType(c, k))
  {
    StaticMatchesTable(c, chain, request, k, fileName);
    RuleAgreesWithTable(c, chain.configuration, k, fileName);
  }

  // ---------------------------------------------------------------------------
  // Properties of the effects on the response.

  /** `write` has two outcomes: an opened file adds exactly one header and its whole
      contents to the body; a file that does not open reports its error text with
      code 0 and writes neither header nor body. The status is never touched. */
  lemma WriteOutcomes(s: ResponseState, result: OpenResult, name: string, value: string)
    ensures var r := WriteEffect(s, result, name, value);
      r.status == s.status && r.statusMessage == s.statusMessage &&
      (result.Opened? ==>
         r.headers == s.headers + [Header(name, value)] && r.body == s.body + result.contents &&
         r.errors == s.errors) &&
      (result.OpenFailed? ==>
         r.headers == s.headers && r.body == s.body && r.errors == s.errors + [SentError(0, result.errorString)])
  {
  }

  /** The not-found branch sets the not-found status, appends exactly the one HTML
      header, writes no body, reads no file, and forwards to the 404 page. */
  lemma NotFoundSteps(c: Constants, s: ResponseState, fs: FileSystem, path: string, url: string)
    ensures var r := Respond(c, s, NotFound, fs, path, url);
      r.status == c.scNotFound && r.statusMessage == c.notFoundMessage &&
      r.headers == s.headers + [Header("Content-Type; charset=UTF-8", "text/html")] &&
      r.body == s.body && r.errors == s.errors
    ensures Delegate(c, NotFound) == ForwardCall(c.status404)
  {
  }

  /** Only serving a file opens one: for every other outcome the response does not
      depend on the file system. */
  lemma OnlyServingReadsFiles(c: Constants, s: ResponseState, o: Outcome, fs: FileSystem, other: FileSystem,
                              path: string, url: string)
    requires !o.Serve?
    ensures Respond(c, s, o, fs, path, url) == Respond(c, s, o, other, path, url)
  {
  }

  /** The dispatcher only appends to the response: the old headers, body and errors
      stay a prefix of the new ones, at most one header is added, and one is added
      exactly when the request is not found or its file is served successfully. */
  lemma ResponseAppendOnly(c: Constants, s: ResponseState, o: Outcome, fs: FileSystem, path: string, url: string)
    ensures var r := Respond(c, s, o, fs, path, url);
      s.headers <= r.headers && s.body <= r.body && s.errors <= r.errors &&
      |r.headers| <= |s.headers| + 1 &&
      (|r.headers| == |s.headers| + 1 <==> o.NotFound? || (o.Serve? && fs(path + url).Opened?))
  {
  }

  /** With distinct extension constants, every extension's constant is unique, so
      the static-file lemmas above hold for every extension. */
  lemma WellFormedExtensionsAreUnique(c: Constants, k: ExtKey)
    requires WellFormed(c)
    ensures UniqueExt(c, k)
  {
  }

  /** With distinct constants, a served file that opens carries, as its one new
      header, the content type of its extension from the flat table, and its whole
      contents are appended to the body. */
  lemma ServedFileCarriesTableType(c: Constants, chain: FilterChain, request: Request, k: ExtKey,
                                   fileName: string, s: ResponseState, fs: FileSystem)
    requires WellFormed(c) && !chain.hasServlet && request.url != c.bar
    requires !Refused(c, chain.configuration, k, fileName) && fs(request.path + request.url).Opened?
    ensures var r := Respond(c, s, chain.Dispatch(c, request, c.extName(k), fileName), fs, request.path, request.url);
      r.headers == s.headers + [Header(c.contentTypeHeader, ServedType(c, k))] &&
      r.body == s.body + fs(request.path + request.url).contents
  {
    WellFormedExtensionsAreUnique(c, k);
    StaticServesTable(c, chain, request, k, fileName);
  }
}
