/** The split of a node's components URI done at registration: the regular
    expression /(^\w+:|^)\/\// picks off a leading `scheme://` (or a bare
    leading `//`), the scheme selects the decentralized side store and the
    rest is the path handed to that store's `save`. */
module Components {

  import opened Wrappers

  /** The side store a registration is forwarded to, and what it saves. */
  datatype Target = Target(store: string, path: string)

  /** The regular-expression class \w: ASCII letters, digits and underscore. */
  predicate IsWordChar(c: char) {
    ('a' <= c <= 'z') || ('A' <= c <= 'Z') || ('0' <= c <= '9') || c == '_'
  }

  /** A non-empty run of \w characters, what \w+ matches. */
  predicate IsWord(w: string) {
    |w| > 0 && forall i :: 0 <= i < |w| ==> IsWordChar(w[i])
  }

  predicate HasDoubleSlash(s: string) {
    exists i :: 0 <= i < |s| - 1 && s[i] == '/' && s[i + 1] == '/'
  }

  /** The length of the longest prefix of \w characters. */
  function WordRun(s: string): (n: nat)
    ensures n <= |s|
    ensures forall i :: 0 <= i < n ==> IsWordChar(s[i])
    ensures n < |s| ==> !IsWordChar(s[n])
  {
    if |s| > 0 && IsWordChar(s[0]) then 1 + WordRun(s[1..]) else 0
  }

  /** The match of /(^\w+:|^)\/\// and the two replacements that follow it.
      With a scheme, the store key is the scheme (the match with `://`
      removed) and the path is what follows `://`. With a bare leading `//`
      the match contains no `://`, so the key stays `//`. Without a match
      the source dereferences null and the handler throws: `None`. */
  function Split(components: string): (r: Option<Target>)
    ensures r.Some? && r.value.store != "//" ==>
      IsWord(r.value.store) && components == r.value.store + "://" + r.value.path
    ensures r.Some? && r.value.store == "//" ==> components == "//" + r.value.path
  {
    var n := WordRun(components);
    if 0 < n && n + 3 <= |components| && components[n..n + 3] == "://" then
      assert components == components[..n] + "://" + components[n + 3..];
      Some(Target(components[..n], components[n + 3..]))
    else if 2 <= |components| && components[..2] == "//" then
      assert components == "//" + components[2..];
      Some(Target("//", components[2..]))
    else
      None
  }

  /** A scheme of word characters, `://` and a path split back into that
      scheme and that path; joining them rebuilds the input. */
  lemma SplitRoundTrip(scheme: string, path: string)
    requires IsWord(scheme)
    ensures Split(scheme + "://" + path) == Some(Target(scheme, path))
  {
    var s := scheme + "://" + path;
    var n := WordRun(s);
    assert s[|scheme|] == ':';
    assert forall i :: 0 <= i < |scheme| ==> s[i] == scheme[i];
    assert s[n..n + 3] == "://";
    assert s[..n] == scheme;
    assert s[n + 3..] == path;
  }

  /** A bare leading `//` is matched by the empty alternative: the store key
      is `//` itself and the path is the rest. */
  lemma SplitBareSlashes(path: string)
    ensures Split("//" + path) == Some(Target("//", path))
  {
  }

  /** Only an input that contains `//` can be split. */
  lemma SplitNeedsDoubleSlash(components: string)
    ensures Split(components).Some? ==> HasDoubleSlash(components)
  {
    var r := Split(components);
    if r.Some? {
      var k := if r.value.store == "//" then 0 else |r.value.store| + 1;
      assert components[k] == '/' && components[k + 1] == '/';
    }
  }
}
