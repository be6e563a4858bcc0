// POST /api/upload: each uploaded data URL is converted to WebP and stored,
// in the blob store in production and on local disk otherwise; the response
// lists one URL per file, in order.
module Upload {
  import opened Http
  import opened Db

  /** An uploaded file: its original name and its content as a data URL. */
  datatype ServerFile = ServerFile(name: string, content: string)

  const NoFiles := HttpError(400, "No files uploaded")

  // ----- the WebP file name -----

  /** What `\.[^/.]+$` matches: a dot, then one or more characters that are
      neither a slash nor a dot, up to the end. */
  ghost predicate IsExtension(s: string) {
    |s| >= 2 && s[0] == '.' && forall i :: 1 <= i < |s| ==> s[i] != '/' && s[i] != '.'
  }

  /** The length of the longest suffix holding neither a slash nor a dot. */
  function TrailingRun(s: string): (n: nat)
    ensures n <= |s|
    ensures forall i :: |s| - n <= i < |s| ==> s[i] != '/' && s[i] != '.'
    ensures n < |s| ==> s[|s| - n - 1] == '/' || s[|s| - n - 1] == '.'
  {
    if s == [] then 0
    else if s[|s| - 1] == '/' || s[|s| - 1] == '.' then 0
    else TrailingRun(s[..|s| - 1]) + 1
  }

  /** `name.replace(/\.[^/.]+$/, '')`: drops the extension, if there is one. */
  function StripExtension(name: string): string {
    var n := TrailingRun(name);
    if 1 <= n < |name| && name[|name| - n - 1] == '.' then name[..|name| - n - 1] else name
  }

  function WebpName(name: string): string {
    StripExtension(name) + ".webp"
  }

  /** When the name ends in an extension, that extension is replaced. */
  lemma {:induction false} WebpNameReplacesExtension(name: string, k: nat)
    requires k <= |name| && IsExtension(name[k..])
    ensures WebpName(name) == name[..k] + ".webp"
  {
    forall i | k + 1 <= i < |name| ensures name[i] != '/' && name[i] != '.' {
      assert name[k..][i - k] == name[i];
    }
    assert name[k] == name[k..][0] == '.';
    assert TrailingRun(name) == |name| - k - 1;
  }

  /** When it does not, ".webp" is appended to the whole name. */
  lemma {:induction false} WebpNameAppends(name: string)
    requires forall k :: 0 <= k <= |name| ==> !IsExtension(name[k..])
    ensures WebpName(name) == name + ".webp"
  {
    var n := TrailingRun(name);
    if 1 <= n < |name| && name[|name| - n - 1] == '.' {
      var k := |name| - n - 1;
      var e := name[k..];
      forall i | 1 <= i < |e| ensures e[i] != '/' && e[i] != '.' {
        assert e[i] == name[k + i];
      }
      assert IsExtension(e);
      assert false;
    }
  }

  lemma WebpNameExamples()
    ensures WebpName("a.jpg") == "a.webp"
    ensures WebpName("a") == "a.webp"
  {
    assert "a.jpg"[..4] == "a.jp";
    assert "a.jp"[..3] == "a.j";
    assert "a.j"[..2] == "a.";
    assert TrailingRun("a.jpg") == 3;
    assert "a"[..0] == "";
  }

  // ----- the data URL payload -----

  /** The index of the first occurrence of `c`, if any. */
  function IndexOf(s: string, c: char): (r: Option<nat>)
    ensures r.Some? ==> r.value < |s| && s[r.value] == c && c !in s[..r.value]
    ensures r.None? ==> c !in s
  {
    if s == [] then None
    else if s[0] == c then Some(0)
    else
      match IndexOf(s[1..], c)
      case None => None
      case Some(i) =>
        assert s[..i + 1] == [s[0]] + s[1..][..i];
        Some(i + 1)
  }

  /** `content.split(',')[1]`: the text between the first comma and the next
      one (or the end); undefined when there is no comma. */
  function Payload(content: string): Option<string> {
    match IndexOf(content, ',')
    case None => None
    case Some(i) =>
      var rest := content[i + 1..];
      match IndexOf(rest, ',')
      case None => Some(rest)
      case Some(j) => Some(rest[..j])
  }

  /** The payload is the second comma-separated field: the content is the
      text before the first comma, that comma, the payload and then either
      nothing or the rest from the next comma on. */
  lemma PayloadIsSecondField(content: string) returns (pre: string, post: string)
    ensures Payload(content).None? <==> ',' !in content
    ensures Payload(content).Some? ==>
              && content == pre + "," + Payload(content).value + post
              && ',' !in pre && ',' !in Payload(content).value
              && (post == "" || post[0] == ',')
  {
    pre, post := "", "";
    var first := IndexOf(content, ',');
    if first.Some? {
      var i := first.value;
      var rest := content[i + 1..];
      pre := content[..i];
      assert content == pre + "," + rest;
      var second := IndexOf(rest, ',');
      if second.Some? {
        var j := second.value;
        assert Payload(content) == Some(rest[..j]);
        post := rest[j..];
        assert rest == rest[..j] + post;
      } else {
        assert Payload(content) == Some(rest);
      }
    }
  }

  /** A data URL built as `header,payload` gives its payload back. */
  lemma {:induction false} PayloadOfDataUrl(header: string, data: string)
    requires ',' !in header && ',' !in data
    ensures Payload(header + "," + data) == Some(data)
  {
    var s := header + "," + data;
    IndexOfPrefix(header, data);
    assert s[|header| + 1..] == data;
  }

  lemma {:induction false} IndexOfPrefix(header: string, data: string)
    requires ',' !in header
    ensures IndexOf(header + "," + data, ',') == Some(|header|)
  {
    var s := header + "," + data;
    if header == [] {
      assert s[0] == ',';
    } else {
      assert s[0] == header[0] != ',';
      assert s[1..] == header[1..] + "," + data;
      IndexOfPrefix(header[1..], data);
    }
  }

  // ----- the handler -----

  /** The URL one file ends up at: none when its content has no payload or
      the payload is not an image `convert` can turn into WebP. */
  function UrlFor(f: ServerFile, production: bool, convert: string -> Option<string>,
                  put: (string, string) -> string, storeLocally: (string, string) -> string): Option<string>
  {
    match Payload(f.content)
    case None => None
    case Some(data) =>
      match convert(data)
      case None => None
      case Some(webp) =>
        if production then Some(put(WebpName(f.name), webp))
        else Some("/images/listings/" + storeLocally(WebpName(f.name), webp))
  }

  /** 401 without a session, 400 without files, 500 if a file cannot be
      converted, otherwise one URL per file, in the order of the files. */
  method Handle(session: Option<Session>, files: Option<seq<ServerFile>>, production: bool,
                convert: string -> Option<string>, put: (string, string) -> string,
                storeLocally: (string, string) -> string)
    returns (r: Result<seq<string>>)
    ensures session.None? ==> r == Err(Unauthorized)
    ensures session.Some? && (files.None? || files.value == []) ==> r == Err(NoFiles)
    ensures (session.Some? && files.Some? && files.value != []) ==>
              (r.Ok? <==> forall i :: 0 <= i < |files.value| ==>
                            UrlFor(files.value[i], production, convert, put, storeLocally).Some?)
    ensures (session.Some? && files.Some? && files.value != [] && r.Err?) ==> r.error == InternalError
    ensures r.Ok? ==>
              && files.Some?
              && |r.value| == |files.value|
              && forall i :: 0 <= i < |files.value| ==>
                   Some(r.value[i]) == UrlFor(files.value[i], production, convert, put, storeLocally)
  {
    if session.None? {
      return Err(Unauthorized);
    }
    if files.None? || files.value == [] {
      return Err(NoFiles);
    }
    var fs := files.value;
    var urls: seq<string> := [];
    for i := 0 to |fs|
      invariant |urls| == i
      invariant forall j :: 0 <= j < i ==> Some(urls[j]) == UrlFor(fs[j], production, convert, put, storeLocally)
    {
      var data := Payload(fs[i].content);
      if data.None? {
        return Err(InternalError);
      }
      var webp := convert(data.value);
      if webp.None? {
        return Err(InternalError);
      }
      var name := WebpName(fs[i].name);
      if production {
        urls := urls + [put(name, webp.value)];
      } else {
        urls := urls + ["/images/listings/" + storeLocally(name, webp.value)];
      }
    }
    r := Ok(urls);
  }
}
