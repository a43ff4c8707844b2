/** The file route `GET /api/file?path=...` of `app/api/file/route.ts`: it
    serves a file of the knowledge base, falling back to the `img` directory
    beside the requested file's parent directory. The file system is given
    as two predicates (`fs.access` succeeds, `fs.readFile` succeeds);
    `path.normalize` and `encodeURIComponent` are parameters. */
module FileRoute {
  import opened Util
  import opened Paths

  // ---------------------------------------------------------------------
  // `serveFile`

  /** The content-type table, by lower-cased extension. */
  function KnownContentType(ext: string): Option<string>
  {
    if ext == ".pdf" then Some("application/pdf")
    else if ext == ".md" || ext == ".markdown" then Some("text/markdown")
    else if ext == ".png" then Some("image/png")
    else if ext == ".jpg" || ext == ".jpeg" then Some("image/jpeg")
    else if ext == ".gif" then Some("image/gif")
    else if ext == ".svg" then Some("image/svg+xml")
    else if ext == ".webp" then Some("image/webp")
    else None
  }

  const DefaultContentType: string := "application/octet-stream"

  function ContentTypeOf(filePath: string): string
  {
    match KnownContentType(LowerAscii(Extname(filePath)))
    case Some(t) => t
    case None => DefaultContentType
  }

  /** A name without an extension is served as generic binary data. */
  lemma NoExtensionIsBinary(filePath: string)
    requires Extname(filePath) == ""
    ensures ContentTypeOf(filePath) == DefaultContentType
  {
    assert LowerAscii("") == "";
  }

  lemma LowerPng()
    ensures LowerAscii(".PNG") == ".png"
  {
    var l := LowerAscii(".PNG");
    assert LowerChar('P') == 'p' && LowerChar('N') == 'n' && LowerChar('G') == 'g';
    assert l[0] == '.' && l[1] == 'p' && l[2] == 'n' && l[3] == 'g';
  }

  /** The table is read with the lower-cased extension: a path whose
      extension is ".PNG" is served as a PNG image. */
  lemma UpperCaseExtension(p: string)
    requires Extname(p) == ".PNG"
    ensures ContentTypeOf(p) == "image/png"
  {
    LowerPng();
  }

  /** The extensions the table knows; every other one gives the default
      type. */
  const KnownExtensions: seq<string> := [".pdf", ".md", ".markdown", ".png", ".jpg", ".jpeg", ".gif", ".svg", ".webp"]

  lemma ContentTypeDefault(ext: string)
    ensures KnownContentType(ext).None? <==> ext !in KnownExtensions
  {
  }

  lemma GzExtension()
    ensures Extname("a.tar.gz") == ".gz"
  {
    ExtnameOfPlainName("a.tar.gz", 5);
  }

  /** Only the last extension counts. */
  lemma LastExtensionExample()
    ensures ContentTypeOf("a.tar.gz") == DefaultContentType
  {
    GzExtension();
    LowerGz();
  }

  lemma LowerGz()
    ensures LowerAscii(".gz") == ".gz"
  {
    LowerAsciiIdentity(".gz");
  }

  /** A name whose only dot starts it has no extension. */
  lemma DotFileExample()
    ensures ContentTypeOf(".pdf") == DefaultContentType
  {
    var r := ".pdf";
    assert LastIndex(r, '/') == -1 by {
      assert forall i :: 0 <= i < |r| ==> r[i] != '/';
    }
    assert LastIndex(r, '.') == 0 by {
      assert r[0] == '.' && forall i :: 0 < i < |r| ==> r[i] != '.';
    }
    NoExtensionIsBinary(r);
  }

  /** `.replace(/['()]/g, escape).replace(/\*\/g, "%2A")` on one character. */
  function EscapeChar(c: char): string
  {
    if c == '\'' then "%27"
    else if c == '(' then "%28"
    else if c == ')' then "%29"
    else if c == '*' then "%2A"
    else [c]
  }

  function EscapeReserved(s: string): string
  {
    if s == [] then [] else EscapeChar(s[0]) + EscapeReserved(s[1..])
  }

  /** The characters `encodeURIComponent` leaves as they are. */
  predicate IsUriUnreserved(c: char)
  {
    ('a' <= c <= 'z') || ('A' <= c <= 'Z') || ('0' <= c <= '9')
    || c == '-' || c == '_' || c == '.' || c == '!' || c == '~' || c == '*' || c == '\'' || c == '(' || c == ')'
  }

  /** `attr-char` of section 3.2.1 of RFC 5987. */
  predicate IsAttrChar(c: char)
  {
    ('a' <= c <= 'z') || ('A' <= c <= 'Z') || ('0' <= c <= '9')
    || c == '!' || c == '#' || c == '$' || c == '&' || c == '+' || c == '-' || c == '.'
    || c == '^' || c == '_' || c == '`' || c == '|' || c == '~'
  }

  /** What `encodeURIComponent` produces: unreserved characters and `%`
      escapes. */
  predicate UriEncoded(s: string)
  {
    forall i :: 0 <= i < |s| ==> IsUriUnreserved(s[i]) || s[i] == '%'
  }

  /** What the `value-chars` of an RFC 5987 `ext-value` may hold: `attr-char`
      and the `%` of a `pct-encoded` octet. */
  predicate ValueChars(s: string)
  {
    forall i :: 0 <= i < |s| ==> IsAttrChar(s[i]) || s[i] == '%'
  }

  /** After the two replacements the encoded name holds nothing but
      characters an RFC 5987 value may carry, so it can go into `filename*`
      as section 4.3 of RFC 6266 describes. */
  lemma {:induction false} EscapeReservedValueChars(s: string)
    requires UriEncoded(s)
    ensures ValueChars(EscapeReserved(s))
  {
    if s != [] {
      EscapeReservedValueChars(s[1..]);
      var e := EscapeReserved(s);
      var h := EscapeChar(s[0]);
      assert e == h + EscapeReserved(s[1..]);
      forall i | 0 <= i < |e| ensures IsAttrChar(e[i]) || e[i] == '%' {
        if i >= |h| {
          assert e[i] == EscapeReserved(s[1..])[i - |h|];
        }
      }
    }
  }

  lemma EscapeExample()
    ensures EscapeReserved("a(1)*") == "a%281%29%2A"
  {
    var s := "a(1)*";
    assert s[1..] == "(1)*" && s[2..] == "1)*" && s[3..] == ")*" && s[4..] == "*";
    assert EscapeReserved("*") == "%2A" by {
      assert "*"[1..] == [];
    }
  }

  function ContentDisposition(filePath: string, encode: string -> string): string
  {
    "inline; filename*=UTF-8''" + EscapeReserved(encode(Basename(filePath)))
  }

  // ---------------------------------------------------------------------
  // `GET`

  datatype Response =
    | Error(status: nat, message: string)
    | FileBody(path: string, contentType: string, disposition: string)

  /** `serveFile`: the headers are derived from the path the bytes were read
      from. */
  function ServeFile(filePath: string, encode: string -> string): Response
  {
    FileBody(filePath, ContentTypeOf(filePath), ContentDisposition(filePath, encode))
  }

  /** Where a file not found at `p` is looked for next: the `img` directory
      beside `p`'s parent directory. */
  function FallbackPath(p: string): string
  {
    Join3(Dirname(Dirname(p)), "img", Basename(p))
  }

  /** The route's decision. `pathParam` is the `path` query parameter;
      `accessible` and `readable` say whether `fs.access` and `fs.readFile`
      succeed on a path. */
  function Get(pathParam: Option<string>, normalize: string -> string, encode: string -> string,
               accessible: string -> bool, readable: string -> bool): Response
  {
    if pathParam.None? || pathParam.value == "" then Error(400, "No file path provided")
    else
      var p := normalize(pathParam.value);
      if accessible(p) then
        if readable(p) then ServeFile(p, encode) else Error(500, "Failed to serve file")
      else
        var fallback := FallbackPath(p);
        if accessible(fallback) && readable(fallback) then ServeFile(fallback, encode)
        else Error(404, "File not found")
  }

  /** Without a path the answer is 400 whatever the file system holds: no
      file is looked at. */
  lemma MissingPathIs400(pathParam: Option<string>, normalize: string -> string, encode: string -> string,
                         accessible: string -> bool, readable: string -> bool,
                         accessible': string -> bool, readable': string -> bool)
    requires pathParam.None? || pathParam.value == ""
    ensures Get(pathParam, normalize, encode, accessible, readable).Error?
    ensures Get(pathParam, normalize, encode, accessible, readable).status == 400
    ensures Get(pathParam, normalize, encode, accessible, readable)
            == Get(pathParam, normalize, encode, accessible', readable')
  {
  }

  /** A file is served only from the normalised path or, when that is not
      accessible, from its fallback; its headers are those of the path it
      was read from. When neither is there the answer is 404, and a read
      that fails after a successful access gives 500 on the original path
      but 404 on the fallback. */
  lemma GetOutcome(param: string, normalize: string -> string, encode: string -> string,
                   accessible: string -> bool, readable: string -> bool)
    requires param != ""
    ensures var p := normalize(param);
            var r := Get(Some(param), normalize, encode, accessible, readable);
            && (r.FileBody? ==>
                  && accessible(r.path) && readable(r.path)
                  && (r.path == p || (!accessible(p) && r.path == FallbackPath(p)))
                  && r.contentType == ContentTypeOf(r.path))
            && (accessible(p) ==> r.FileBody? == readable(p))
            && (accessible(p) && !readable(p) ==> r == Error(500, "Failed to serve file"))
            && (!accessible(p) ==>
                  (r.FileBody? <==> accessible(FallbackPath(p)) && readable(FallbackPath(p))))
            && (!accessible(p) && !r.FileBody? ==> r == Error(404, "File not found"))
  {
  }

  /** The fallback of an image the resolver linked relatively from a note in
      `dir` is the `img` directory beside `dir`'s parent... */
  lemma FallbackOfRelative(dir: string, name: string)
    requires dir != [] && dir[|dir| - 1] != '/'
    requires name != [] && forall i :: 0 <= i < |name| ==> name[i] != '/'
    ensures FallbackPath(Join(dir, name)) == Join3(Dirname(dir), "img", name)
  {
    DirnameJoin(dir, name);
    BasenameJoin(dir, name);
  }

  /** ... while the fallback of a pasted image, already linked into `dir/img`,
      is that same path again. */
  lemma FallbackOfPasted(dir: string, name: string)
    requires dir != [] && dir[|dir| - 1] != '/'
    requires name != [] && forall i :: 0 <= i < |name| ==> name[i] != '/'
    ensures FallbackPath(Join3(dir, "img", name)) == Join3(dir, "img", name)
  {
    var imgDir := Join(dir, "img");
    assert imgDir == dir + "/" + "img";
    assert imgDir[|imgDir| - 1] == 'g';
    DirnameJoin(imgDir, name);
    BasenameJoin(imgDir, name);
    DirnameJoin(dir, "img");
  }
}
