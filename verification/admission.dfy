/**
  The decision part of `request_handle`: given the method and target of the
  request line and what `stat` reports, either an error page or a request
  to enqueue. `stat` is modelled by a map from path to metadata; a path
  missing from the map is one on which `stat` fails.
 */
module Admission {
  import opened CStrings
  import opened RequestQueue
  import opened Uri
  import opened Http

  /** What a successful `stat` reports that the handler looks at. */
  datatype FileMeta = FileMeta(isRegular: bool, userReadable: bool, size: nat)

  /** The file system as `stat` sees it. */
  type FileSystem = map<string, FileMeta>

  /** `strcasecmp(verb, "GET") == 0`. */
  predicate IsGet(verb: string)
  {
    EqualsIgnoreCase(verb, "GET")
  }

  /** The method test accepts exactly the eight spellings of GET in any case. */
  lemma IsGetSpellings(verb: string)
    ensures IsGet(verb) <==>
              verb in {"GET", "GEt", "GeT", "Get", "gET", "gEt", "geT", "get"}
  {
    if IsGet(verb) {
      ToLowerLetter(verb[0], 'g');
      ToLowerLetter(verb[1], 'e');
      ToLowerLetter(verb[2], 't');
      assert verb == [verb[0], verb[1], verb[2]];
    }
  }

  /** The outcome of admission: an error page to send, or a request to queue. */
  datatype Decision = Reject(error: ErrorInfo) | Accept(req: Request)

  /** The four error pages `request_handle` can send. */
  function MethodError(verb: string): ErrorInfo
  {
    ErrorInfo(verb, "501", "Not Implemented", "server does not implement this method")
  }

  function NotFoundError(filename: string): ErrorInfo
  {
    ErrorInfo(filename, "404", "Not found", "server could not find this file")
  }

  function ForbiddenError(filename: string): ErrorInfo
  {
    ErrorInfo(filename, "403", "Forbidden", "server could not read this file")
  }

  function DynamicError(filename: string): ErrorInfo
  {
    ErrorInfo(filename, "501", "Not Implemented", "server does not serve dynamic content request")
  }

  /**
    The method is checked first; then the target is resolved and `stat`ed
    before the static/dynamic branch, so a missing file is 404 whatever its
    kind. A static target must be a regular, user-readable file; a dynamic
    one that exists is refused with 501. The target's last character is
    read only once the method is GET.
   */
  function Admit(fd: int, verb: string, uri: string, fs: FileSystem): (d: Decision)
    requires IsGet(verb) ==> |uri| > 0
    ensures !IsGet(verb) ==> d == Reject(MethodError(verb))
    ensures d.Accept? ==> d.req.fd == fd && d.req.filename in fs
    ensures d.Reject? ==> d.error.errnum in {"403", "404", "501"}
  {
    if !IsGet(verb) then Reject(MethodError(verb))
    else
      var p := ParseUri(uri);
      if p.filename !in fs then Reject(NotFoundError(p.filename))
      else
        var meta := fs[p.filename];
        if p.isStatic then
          if !meta.isRegular || !meta.userReadable then Reject(ForbiddenError(p.filename))
          else Accept(MakeRequest(fd, meta.size, p.filename))
        else Reject(DynamicError(p.filename))
  }

  /**
    A request is queued exactly when the method is GET, the target has no
    "cgi" in it, and its path names a regular file the owner may read; the
    queued record carries the socket, the path and the size as stored.
   */
  lemma AcceptedExactly(fd: int, verb: string, uri: string, fs: FileSystem)
    requires IsGet(verb) ==> |uri| > 0
    ensures Admit(fd, verb, uri, fs).Accept? <==>
              && IsGet(verb)
              && !HasSubstring(uri, "cgi")
              && ParseUri(uri).filename in fs
              && fs[ParseUri(uri).filename].isRegular
              && fs[ParseUri(uri).filename].userReadable
    ensures Admit(fd, verb, uri, fs).Accept? ==>
              var f := ParseUri(uri).filename;
              Admit(fd, verb, uri, fs).req == MakeRequest(fd, fs[f].size, f)
  {
  }

  /** A GET whose path `stat` cannot find is 404, static or dynamic alike. */
  lemma MissingIsNotFound(fd: int, verb: string, uri: string, fs: FileSystem)
    requires IsGet(verb) && |uri| > 0
    requires ParseUri(uri).filename !in fs
    ensures Admit(fd, verb, uri, fs) == Reject(NotFoundError(ParseUri(uri).filename))
  {
  }

  /** A static GET on an existing path that is not a readable regular file is 403. */
  lemma UnreadableIsForbidden(fd: int, verb: string, uri: string, fs: FileSystem)
    requires IsGet(verb) && |uri| > 0 && !HasSubstring(uri, "cgi")
    requires ParseUri(uri).filename in fs
    requires !fs[ParseUri(uri).filename].isRegular || !fs[ParseUri(uri).filename].userReadable
    ensures Admit(fd, verb, uri, fs) == Reject(ForbiddenError(ParseUri(uri).filename))
  {
  }

  /** A dynamic GET whose path exists is 501. */
  lemma ExistingDynamicIsNotImplemented(fd: int, verb: string, uri: string, fs: FileSystem)
    requires IsGet(verb) && HasSubstring(uri, "cgi")
    requires ParseUri(uri).filename in fs
    ensures Admit(fd, verb, uri, fs) == Reject(DynamicError(ParseUri(uri).filename))
  {
  }

  /** A CGI target whose first '?' is at `k` resolves to "." + the text before it. */
  lemma DynamicPathOf(uri: string, k: nat)
    requires HasSubstring(uri, "cgi") && k < |uri| && uri[k] == '?' && '?' !in uri[..k]
    ensures ParseUri(uri) == ParsedUri(false, "." + uri[..k], uri[k + 1..])
  {
    IndexOfFirst(uri, '?', k);
  }

  /** A static target not ending in '/' resolves to "." followed by the target. */
  lemma StaticPathOf(uri: string)
    requires |uri| > 0 && !HasSubstring(uri, "cgi") && uri[|uri| - 1] != '/'
    ensures ParseUri(uri).isStatic && ParseUri(uri).filename == "." + uri
  {
  }

  /**
    GET of a missing "/missing.html" is refused with the 404 page, whose
    body names its short message "Not found" (see `ErrorBodyMentionsAll`).
   */
  lemma MissingPageScenario(fd: int, uri: string)
    requires uri == "/missing.html"
    ensures Admit(fd, "GET", uri, map[]) == Reject(NotFoundError("./missing.html"))
    ensures Admit(fd, "GET", uri, map[]).error.shortMsg == "Not found"
  {
    assert IsGet("GET");
    NoFirstCharNoSubstring(uri, "cgi");
    StaticPathOf(uri);
  }

  /** GET "/" with a readable "./index.html": queued, and served as text/html. */
  lemma IndexPageScenario(fd: int, uri: string, size: nat)
    requires uri == "/" && size <= Int32Max
    ensures var fs := map["./index.html" := FileMeta(true, true, size)];
            Admit(fd, "GET", uri, fs) == Accept(Request(fd, size, "./index.html"))
    ensures FileType("./index.html") == TextHtml
  {
    assert IsGet("GET");
    NoFirstCharNoSubstring(uri, "cgi");
    assert ParseUri(uri).filename == "./index.html";
    DirectoryTargetIsHtml(uri);
  }

  /** "/script.cgi?x=1" is dynamic, with path "./script.cgi" and arguments "x=1". */
  lemma ScriptTargetParse(uri: string)
    requires uri == "/script.cgi?x=1"
    ensures HasSubstring(uri, "cgi")
    ensures ParseUri(uri) == ParsedUri(false, "./script.cgi", "x=1")
  {
    ScriptTargetShape(uri);
    DynamicPathOf(uri, 11);
  }

  /** Where "cgi" and the first '?' sit in "/script.cgi?x=1". */
  lemma ScriptTargetShape(uri: string)
    requires uri == "/script.cgi?x=1"
    ensures HasSubstring(uri, "cgi")
    ensures uri[11] == '?' && '?' !in uri[..11]
    ensures "." + uri[..11] == "./script.cgi" && uri[12..] == "x=1"
  {
    assert OccursAt(uri, "cgi", 8);
  }

  /**
    GET "/script.cgi?x=1": 404 when "./script.cgi" does not exist, 501 when
    it does; the arguments after '?' never take part in the lookup.
   */
  lemma CgiScenario(fd: int, uri: string, meta: FileMeta)
    requires uri == "/script.cgi?x=1"
    ensures ParseUri(uri).cgiargs == "x=1"
    ensures Admit(fd, "GET", uri, map[]) == Reject(NotFoundError("./script.cgi"))
    ensures Admit(fd, "GET", uri, map["./script.cgi" := meta]) == Reject(DynamicError("./script.cgi"))
  {
    assert IsGet("GET");
    ScriptTargetParse(uri);
    MissingIsNotFound(fd, "GET", uri, map[]);
    ExistingDynamicIsNotImplemented(fd, "GET", uri, map["./script.cgi" := meta]);
  }

  /** What `request_handle` leaves behind: the buffer, and the page sent if any. */
  datatype Handled = Handled(queue: seq<Request>, reply: Option<Response>)

  /**
    A full admission: rejected requests get their error page and leave the
    buffer alone; an accepted one waits for room (a precondition here) and
    is appended.
   */
  function Handle(q: seq<Request>, capacity: nat, fd: int, verb: string, uri: string, fs: FileSystem)
    : (h: Handled)
    requires IsGet(verb) ==> |uri| > 0
    requires Admit(fd, verb, uri, fs).Accept? ==> |q| < capacity
    ensures h.reply.None? <==> Admit(fd, verb, uri, fs).Accept?
    ensures h.reply.None? ==> h.queue == q + [Admit(fd, verb, uri, fs).req] && h.queue[|q|].fd == fd
    ensures h.reply.Some? ==> h.queue == q && h.reply.value == ErrorResponse(Admit(fd, verb, uri, fs).error)
    ensures h.reply.Some? ==> h.reply.value.status in {"403", "404", "501"}
    ensures |q| <= capacity ==> |h.queue| <= capacity
  {
    match Admit(fd, verb, uri, fs)
    case Reject(e) => Handled(q, Some(ErrorResponse(e)))
    case Accept(req) => Handled(Enqueue(q, req, capacity), None)
  }

  /** A non-GET request never reaches the buffer and always gets the 501 page. */
  lemma NonGetNeverQueued(q: seq<Request>, capacity: nat, fd: int, verb: string, uri: string, fs: FileSystem)
    requires !IsGet(verb)
    ensures Handle(q, capacity, fd, verb, uri, fs) == Handled(q, Some(ErrorResponse(MethodError(verb))))
  {
  }

  /**
    Handling a connection whose socket is not already queued keeps the
    buffer within capacity with distinct sockets, whatever the outcome.
   */
  lemma HandleKeepsInvariant(q: seq<Request>, capacity: nat, fd: int, verb: string, uri: string, fs: FileSystem)
    requires IsGet(verb) ==> |uri| > 0
    requires Admit(fd, verb, uri, fs).Accept? ==> |q| < capacity
    requires QueueInvariant(q, capacity)
    requires forall j :: 0 <= j < |q| ==> q[j].fd != fd
    ensures QueueInvariant(Handle(q, capacity, fd, verb, uri, fs).queue, capacity)
  {
    var d := Admit(fd, verb, uri, fs);
    if d.Accept? {
      EnqueueKeepsInvariant(q, d.req, capacity);
    }
  }
}
