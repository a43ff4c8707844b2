/** `resolveImagePath`: the URL an embedded image name is rendered with.
    `encodeURIComponent` is a parameter (`encode`): the model does not
    interpret percent-encoding. */
module ImagePaths {
  import opened Paths

  /** The route that serves files from the knowledge base. */
  const FileRoute: string := "/api/file?path="

  const PastedPrefix: string := "Pasted image"

  /** The directory, below the note's directory, that pasted images live in. */
  const ImageDir: string := "img"

  function ResolveImagePath(name: string, basePath: string, encode: string -> string): (url: string)
    ensures PastedPrefix <= name ==> url == FileRoute + encode(Join3(basePath, ImageDir, name))
    ensures !(PastedPrefix <= name) && !("/" <= name) && !("http" <= name) ==>
              url == FileRoute + encode(Join(basePath, name))
  {
    if PastedPrefix <= name then FileRoute + encode(Join3(basePath, ImageDir, name))
    else if !("/" <= name) && !("http" <= name) then FileRoute + encode(Join(basePath, name))
    else name
  }

  /** A name comes back unchanged exactly when it is not a pasted image and
      starts with "/" or "http"; every other name becomes a link to the file
      route. The prefix test is plain, so "httpfoo.png" also passes through. */
  lemma ResolveUnchanged(name: string, basePath: string, encode: string -> string)
    ensures ResolveImagePath(name, basePath, encode) == name <==>
              !(PastedPrefix <= name) && ("/" <= name || "http" <= name)
    ensures ResolveImagePath(name, basePath, encode) != name ==>
              FileRoute <= ResolveImagePath(name, basePath, encode)
  {
    var url := ResolveImagePath(name, basePath, encode);
    if PastedPrefix <= name {
      assert name[0] == 'P' && url[0] == '/';
    } else if !("/" <= name) && !("http" <= name) {
      assert url[0] == '/';
      assert name == [] || name[0] != '/';
    }
  }

  /** The pasted-image test comes first: a pasted image is looked up in the
      image directory even when its name also starts with "http". */
  lemma PastedBeforeHttp(basePath: string, encode: string -> string)
    ensures ResolveImagePath("Pasted image http.png", basePath, encode)
            == FileRoute + encode(Join3(basePath, ImageDir, "Pasted image http.png"))
    ensures ResolveImagePath("httpfoo.png", basePath, encode) == "httpfoo.png"
    ensures ResolveImagePath("/abs/a.png", basePath, encode) == "/abs/a.png"
  {
    assert "http" <= "httpfoo.png";
    assert "/" <= "/abs/a.png";
  }

  /** With a note directory that does not end in "/", a pasted image resolves
      to the image directory beside the note, and a relative name to the
      note's directory, in the form `path.join` produces. */
  lemma ResolveConcrete(encode: string -> string)
    ensures ResolveImagePath("Pasted image 1.png", "kb/notes", encode)
            == FileRoute + encode("kb/notes/img/Pasted image 1.png")
    ensures ResolveImagePath("diagram.png", "kb/notes", encode)
            == FileRoute + encode("kb/notes/diagram.png")
  {
    assert PastedPrefix <= "Pasted image 1.png";
    var d := "diagram.png";
    assert d[0] == 'd' && PastedPrefix[0] == 'P';
    assert !(PastedPrefix <= d) && !("/" <= d) && !("http" <= d);
    var base := "kb/notes";
    assert base[|base| - 1] == 's';
    assert Join(base, "img") == "kb/notes/img";
    var dir := "kb/notes/img";
    assert dir[|dir| - 1] == 'g';
    assert Join(dir, "Pasted image 1.png") == "kb/notes/img/Pasted image 1.png";
    assert Join(base, d) == "kb/notes/diagram.png";
  }
}
