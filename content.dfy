/** Classification of a dialog's `content` attribute: a URL-like string is
    loaded remotely, anything else is rendered inline. */
module Content {

  /** The values the `content` attribute takes: markup or plain text, an
      element (or element set) built by the caller, or nothing (the default). */
  datatype Value = Markup(text: string) | Element | Absent

  /** The alternatives of the pattern `^(https?://|/|\./|\.\./)`, written out. */
  const RemotePrefixes: seq<string> := ["http://", "https://", "/", "./", "../"]

  /** `http` followed by the optional `s` and then `://`. */
  predicate HttpScheme(s: string) {
    |s| >= 7 && s[0] == 'h' && s[1] == 't' && s[2] == 't' && s[3] == 'p' &&
    var k := if s[4] == 's' then 5 else 4;
    |s| >= k + 3 && s[k] == ':' && s[k + 1] == '/' && s[k + 2] == '/'
  }

  /** The pattern tested by the `content` setter, matched from the first
      character on, one alternative at a time. */
  predicate IsRemoteText(s: string) {
    HttpScheme(s)
    || (|s| >= 1 && s[0] == '/')
    || (|s| >= 2 && s[0] == '.' && s[1] == '/')
    || (|s| >= 3 && s[0] == '.' && s[1] == '.' && s[2] == '/')
  }

  /** The `_ajax` flag the setter derives. A non-string value reaches the
      pattern as its string form (`null`, `[object Object]`, ...), which
      never matches. */
  function IsRemote(c: Value): (r: bool)
    ensures r ==> c.Markup?
  {
    match c
    case Markup(s) => IsRemoteText(s)
    case Element => false
    case Absent => false
  }

  /** The character-level matcher agrees with "starts with one of the five
      prefixes", in both directions. */
  lemma IsRemoteTextIffPrefix(s: string)
    ensures IsRemoteText(s) ==> exists p :: p in RemotePrefixes && p <= s
    ensures (exists p :: p in RemotePrefixes && p <= s) ==> IsRemoteText(s)
  {
    if IsRemoteText(s) {
      if HttpScheme(s) {
        if s[4] == 's' {
          assert s[..8] == "https://" && "https://" in RemotePrefixes;
        } else {
          assert s[..7] == "http://" && "http://" in RemotePrefixes;
        }
      } else if |s| >= 1 && s[0] == '/' {
        assert s[..1] == "/" && "/" in RemotePrefixes;
      } else if |s| >= 2 && s[0] == '.' && s[1] == '/' {
        assert s[..2] == "./" && "./" in RemotePrefixes;
      } else {
        assert s[..3] == "../" && "../" in RemotePrefixes;
      }
    }
    if exists p :: p in RemotePrefixes && p <= s {
      var p :| p in RemotePrefixes && p <= s;
      assert s[..|p|] == p;
      if p == "http://" {
        assert s[0] == 'h' && s[1] == 't' && s[2] == 't' && s[3] == 'p' && s[4] == ':' && s[5] == '/' && s[6] == '/';
      } else if p == "https://" {
        assert s[0] == 'h' && s[1] == 't' && s[2] == 't' && s[3] == 'p' && s[4] == 's' && s[5] == ':' && s[6] == '/' && s[7] == '/';
      } else if p == "/" {
        assert s[0] == '/';
      } else if p == "./" {
        assert s[0] == '.' && s[1] == '/';
      } else {
        assert s[0] == '.' && s[1] == '.' && s[2] == '/';
      }
    }
  }

  /** The example the source's behaviour rests on: a bare file name is not a
      URL, so it is rendered literally. */
  lemma BareFileNameIsInline()
    ensures !IsRemote(Markup("demo.html"))
    ensures !IsRemote(Markup("foobar"))
  {
  }

  /** Relative and absolute URLs are loaded remotely. */
  lemma UrlsAreRemote()
    ensures IsRemote(Markup("./a.html")) && IsRemote(Markup("../a.html"))
    ensures IsRemote(Markup("/a.html"))
    ensures IsRemote(Markup("http://a.html")) && IsRemote(Markup("https://a.html"))
  {
  }

  /** A scheme other than `http`/`https`, or a truncated separator, is inline. */
  lemma NearMissesAreInline()
    ensures !IsRemote(Markup("https:/a")) && !IsRemote(Markup("ftp://a"))
  {
  }
}
