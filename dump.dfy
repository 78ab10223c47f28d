/** The decisions the archive renderer makes: which messages of a session
    are rendered, which media element a message gets, whether it is shown
    as incoming or outgoing, how its text breaks lines, and the file name a
    session page is written to and linked under. HTML output itself is not
    modelled. */
module Dump {
  import opened Wrappers
  import D = Decimal
  import S = Sessions
  import C = Catalog
  import M = Messages

  /** The most messages one session page renders. */
  const MaxRendered := 10000

  /** `messages[len(messages)-10000:]` when there are more than 10000. */
  function Truncate<T>(messages: seq<T>): (r: seq<T>)
    ensures |r| == if |messages| <= MaxRendered then |messages| else MaxRendered
    ensures forall i :: 0 <= i < |r| ==> r[i] == messages[|messages| - |r| + i]
  {
    if |messages| > MaxRendered then messages[|messages| - MaxRendered..] else messages
  }

  /** A short list is rendered whole; a long one loses only its oldest
      entries, and truncating again changes nothing. */
  lemma TruncateKeepsNewest<T>(messages: seq<T>)
    ensures |messages| <= MaxRendered ==> Truncate(messages) == messages
    ensures Truncate(messages) == messages[|messages| - |Truncate(messages)|..]
    ensures Truncate(Truncate(messages)) == Truncate(messages)
  {
    var r := Truncate(messages);
    assert r == messages[|messages| - |r|..];
  }

  /** The media element a page shows for a message. */
  datatype Element = NoElement | Image | Video(mime: string) | Audio(mime: string)

  /** The extension chain of the page template; an exact, case-sensitive
      comparison. */
  function ElementFor(ext: string): Element {
    if ext == ".jpg" then Image
    else if ext == ".png" then Image
    else if ext == ".mp4" then Video("video/mp4")
    else if ext == ".m4a" then Audio("audio/mp4")
    else if ext == ".opus" then Audio("audio/ogg")
    else NoElement
  }

  const RenderedExtensions: set<string> := {".jpg", ".png", ".mp4", ".m4a", ".opus"}

  /** Each element kind is chosen by exactly its extensions, and every
      other extension, "" and differently-cased ones included, shows no
      media. */
  lemma ElementChoice(ext: string)
    ensures ElementFor(ext) == Image <==> ext == ".jpg" || ext == ".png"
    ensures ElementFor(ext) == Video("video/mp4") <==> ext == ".mp4"
    ensures ElementFor(ext) == Audio("audio/mp4") <==> ext == ".m4a"
    ensures ElementFor(ext) == Audio("audio/ogg") <==> ext == ".opus"
    ensures ElementFor(ext) == NoElement <==> ext !in RenderedExtensions
  {
  }

  lemma ElementIsCaseSensitive()
    ensures ElementFor(".JPG") == NoElement && ElementFor("") == NoElement
  {
  }

  /** A media element is only ever rendered for a message whose media was
      resolved, so its source link is never empty. */
  lemma ElementOnlyForResolvedMedia(catalog: map<int, C.Media>, sessionID: int, row: M.MessageRow,
                                    parse: string -> Option<int>, format: int -> string)
    ensures var m := M.ResolveMessage(catalog, sessionID, row, parse, format);
      ElementFor(m.MediaExt) != NoElement ==> M.Resolved(catalog, row) && m.Media != ""
  {
    var m := M.ResolveMessage(catalog, sessionID, row, parse, format);
    if M.Resolved(catalog, row) {
      M.ResolvedMessageMedia(catalog, sessionID, row, parse, format);
      assert m.Media[..6] == "media/";
    }
  }

  /** `{{if .JID}}incoming{{else}}outgoing{{end}}`: a non-nil `*string`
      sender is true in a template, whatever string it refers to. */
  function MessageClass(jid: Option<string>): (c: string)
    ensures c == "incoming" <==> jid.Some?
    ensures c == "outgoing" <==> jid.None?
  {
    if jid.Some? then "incoming" else "outgoing"
  }

  /** `strings.Replace(s, "\n", "<br>", -1)`: every newline, left to right. */
  function ReplaceNewlines(s: string): (r: string)
    ensures '\n' !in r
    ensures '\n' !in s ==> r == s
  {
    if s == [] then []
    else (if s[0] == '\n' then "<br>" else [s[0]]) + ReplaceNewlines(s[1..])
  }

  /** `nl2br`: the text HTML-escaped (`escape` stands for
      `template.HTMLEscapeString`), then every newline turned into `<br>`;
      whatever the escape does, no newline survives. */
  function Nl2br(escape: string -> string, text: string): (r: string)
    ensures '\n' !in r
  {
    ReplaceNewlines(escape(text))
  }

  /** Reading `<br>` back as a newline. */
  function ReplaceBreaks(s: string): string {
    if s == [] then []
    else if |s| >= 4 && s[..4] == "<br>" then "\n" + ReplaceBreaks(s[4..])
    else [s[0]] + ReplaceBreaks(s[1..])
  }

  /** On escaped text, which has no `<`, the replacement loses nothing:
      every `<br>` in the output stands for exactly one newline of the
      input. */
  lemma {:induction false} ReplaceNewlinesRoundTrip(s: string)
    requires '<' !in s
    ensures ReplaceBreaks(ReplaceNewlines(s)) == s
  {
    if s != [] {
      var rest := ReplaceNewlines(s[1..]);
      ReplaceNewlinesRoundTrip(s[1..]);
      if s[0] == '\n' {
        var r := "<br>" + rest;
        assert r[..4] == "<br>" && r[4..] == rest;
      } else {
        var r := [s[0]] + rest;
        assert r[0] == s[0] && r[1..] == rest;
        assert |r| >= 4 ==> r[..4] != "<br>" by {
          if |r| >= 4 { assert r[..4][0] == s[0]; }
        }
      }
    }
  }

  /** The file `DumpSession` writes a session to: `session_<ID>.html`. */
  function SessionFileName(sessionID: int): string {
    "session_" + D.Itoa(sessionID) + ".html"
  }

  /** The link target the sessions index gives a session:
      `session_{{ .ID}}.html`, the ID printed in decimal. */
  function IndexLink(s: S.Session): string {
    "session_" + D.Itoa(s.ID) + ".html"
  }

  /** Every index link opens the page written for that session, and no
      other session's page: distinct sessions are written to distinct
      files. */
  lemma IndexLinkTargetsSessionFile(s: S.Session, t: S.Session)
    ensures IndexLink(s) == SessionFileName(s.ID)
    ensures IndexLink(s) == SessionFileName(t.ID) ==> s.ID == t.ID
  {
    if IndexLink(s) == SessionFileName(t.ID) {
      var a, b := D.Itoa(s.ID), D.Itoa(t.ID);
      assert |a| == |b|;
      assert a == IndexLink(s)[8..8 + |a|];
      assert b == SessionFileName(t.ID)[8..8 + |b|];
      D.ItoaInjective(s.ID, t.ID);
    }
  }
}
