/** The path arithmetic of the resolution pipeline: how a chat-store media
    path becomes a manifest key, the extension `filepath.Ext` extracts, the
    hash-sharded location of a backed-up file, and where a session's media
    copy is placed. `path.Join` is modelled as joining with one `/`; its
    `Clean` step is not modelled (every directory name here is taken to be
    clean already). */
module Paths {
  import D = Decimal

  /** `path.Join(dir, elem)` for clean, non-empty components. */
  function Join(dir: string, elem: string): string {
    dir + "/" + elem
  }

  predicate HasPrefix(s: string, prefix: string) {
    |prefix| <= |s| && s[..|prefix|] == prefix
  }

  /** The manifest key a chat-store media path is looked up under: a path
      that starts with `/` is appended to "Message", any other path to
      "Message/". Either way the key is the path placed, without one
      leading slash, under the manifest's `Message/` namespace. */
  function MediaKey(p: string): (key: string)
    ensures key == "Message/" + (if |p| > 0 && p[0] == '/' then p[1..] else p)
  {
    if HasPrefix(p, "/") then "Message" + p else "Message/" + p
  }

  /** The absolute-looking and the bare relative spelling of a path reach
      the same manifest entry. */
  lemma MediaKeyIgnoresLeadingSlash(q: string)
    requires q == [] || q[0] != '/'
    ensures MediaKey("/" + q) == MediaKey(q) == "Message/" + q
  {
    assert ("/" + q)[1..] == q;
  }

  /** A file extension as `filepath.Ext` returns it: empty, or a dot
      followed by neither dot nor separator. */
  predicate IsExt(e: string) {
    e == [] || (e[0] == '.' && forall k :: 1 <= k < |e| ==> e[k] != '.' && e[k] != '/')
  }

  /** The loop of `filepath.Ext`, scanning `p[..i]` from the end: stop with
      "" at a separator or at the start, return the rest of `p` at a dot. */
  function ExtFrom(p: string, i: nat): (e: string)
    requires i <= |p|
    ensures e != [] ==> |p| - i < |e| <= |p| && e == p[|p| - |e|..] && e[0] == '.'
    ensures e != [] ==> forall k :: |p| - |e| < k < i ==> p[k] != '.' && p[k] != '/'
    ensures e == [] ==> forall k :: 0 <= k < i && p[k] == '.' ==> exists j :: k < j < i && p[j] == '/'
    decreases i
  {
    if i == 0 || p[i - 1] == '/' then ""
    else if p[i - 1] == '.' then p[i - 1..]
    else ExtFrom(p, i - 1)
  }

  /** `filepath.Ext(p)`: the suffix of `p` that starts at the last dot of
      its final element, case preserved, or "" when that element has no
      dot. */
  function Ext(p: string): (e: string)
    ensures IsExt(e)
    ensures e != [] ==> |e| <= |p| && e == p[|p| - |e|..]
    ensures e == [] ==> forall k :: 0 <= k < |p| && p[k] == '.' ==> exists j :: k < j < |p| && p[j] == '/'
  {
    ExtFrom(p, |p|)
  }

  /** Where the backup keeps the file whose content hash is `hash`:
      `<src>/<hash[:2]>/<hash>`. */
  function ShardedSource(src: string, hash: string): string
    requires |hash| >= 2
  {
    Join(Join(src, hash[..2]), hash)
  }

  /** Distinct hashes are stored at distinct locations, so a copy source
      determines the content. */
  lemma ShardedSourceInjective(src: string, h1: string, h2: string)
    requires |h1| >= 2 && |h2| >= 2
    requires ShardedSource(src, h1) == ShardedSource(src, h2)
    ensures h1 == h2
  {
    var s1, s2 := ShardedSource(src, h1), ShardedSource(src, h2);
    assert |h1| == |h2|;
    assert h1 == s1[|s1| - |h1|..];
    assert h2 == s2[|s2| - |h2|..];
  }

  /** `media/<sessionID>`, the per-session media directory. */
  function MediaBase(sessionID: int): string {
    Join("media", D.Itoa(sessionID))
  }

  /** `<mediaID><ext>`, the name of a media copy. */
  function MediaName(mediaID: int, ext: string): string {
    D.Itoa(mediaID) + ext
  }

  /** The copy's path relative to the destination directory: what a
      message records and the rendered page links to. */
  function MediaRel(sessionID: int, mediaID: int, ext: string): string {
    Join(MediaBase(sessionID), MediaName(mediaID, ext))
  }

  /** `path.Join(dst, mediaBase, name)`: the copy's location. */
  function MediaDst(dst: string, sessionID: int, mediaID: int, ext: string): (r: string)
    ensures r == Join(dst, MediaRel(sessionID, mediaID, ext))
  {
    Join(Join(dst, MediaBase(sessionID)), MediaName(mediaID, ext))
  }

  /** A name made of a dot-free stem and an extension splits uniquely. */
  lemma NameSplit(a: string, e: string, b: string, f: string)
    requires forall k :: 0 <= k < |a| ==> a[k] != '.'
    requires forall k :: 0 <= k < |b| ==> b[k] != '.'
    requires IsExt(e) && IsExt(f)
    requires a + e == b + f
    ensures a == b && e == f
  {
    assert a == (a + e)[..|a|];
    assert b == (b + f)[..|b|];
    assert e == (a + e)[|a|..];
    assert f == (b + f)[|b|..];
  }

  lemma PrefixCancel(p: string, x: string, y: string)
    requires p + x == p + y
    ensures x == y
  {
    assert x == (p + x)[|p|..];
    assert y == (p + y)[|p|..];
  }

  /** Within one destination tree, two media of one session never share a
      copy location unless they are the same media with the same
      extension: copy-if-absent cannot mistake one media for another. */
  lemma MediaDstInjective(dst: string, sessionID: int, id1: int, ext1: string, id2: int, ext2: string)
    requires IsExt(ext1) && IsExt(ext2)
    requires MediaDst(dst, sessionID, id1, ext1) == MediaDst(dst, sessionID, id2, ext2)
    ensures id1 == id2 && ext1 == ext2
  {
    var dir := Join(dst, MediaBase(sessionID)) + "/";
    var n1, n2 := MediaName(id1, ext1), MediaName(id2, ext2);
    assert dir + n1 == dir + n2;
    PrefixCancel(dir, n1, n2);
    D.ItoaHasNoDot(id1);
    D.ItoaHasNoDot(id2);
    NameSplit(D.Itoa(id1), ext1, D.Itoa(id2), ext2);
    D.ItoaInjective(id1, id2);
  }
}
