/**
 * The HTML page the listener writes back on a connection whose request line
 * was read (HttpServer.java, lines 82-103). Each written line ends with
 * `newLine()`; the page is modelled as that sequence of lines.
 */
module Response {

  const SuccessText: string := "Authorization has been sent to the SDK. You can close the browser."
  const ErrorText: string := "There was an error receiving the auth code"
  const Footer: string := "</pre></body></html>"

  /** Status line, content type, blank line, opening tags and the message. */
  function Head(hasCode: bool): seq<string>
  {
    ["HTTP/1.0 200 OK", "Content-Type: text/html", "", "<html><body><pre>",
     if hasCode then SuccessText else ErrorText]
  }

  /** `n` empty lines. */
  function Blanks(n: nat): (r: seq<string>)
    ensures |r| == n && forall i :: 0 <= i < n ==> r[i] == ""
  {
    if n == 0 then [] else Blanks(n - 1) + [""]
  }

  /**
   * The header lines the drain loop echoes as blank lines: those before the
   * first empty line, or all of them when the client closes before one.
   */
  function LeadingNonEmpty(lines: seq<string>): (n: nat)
    ensures n <= |lines|
    ensures forall i :: 0 <= i < n ==> lines[i] != ""
    ensures n < |lines| ==> lines[n] == ""
  {
    if lines == [] || lines[0] == "" then 0 else 1 + LeadingNonEmpty(lines[1..])
  }

  /** The whole page for a given outcome and number of drained header lines. */
  function Page(hasCode: bool, drained: nat): (r: seq<string>)
    ensures |r| == 6 + drained
    ensures r[..4] == ["HTTP/1.0 200 OK", "Content-Type: text/html", "", "<html><body><pre>"]
    ensures r[4] == (if hasCode then SuccessText else ErrorText)
    ensures forall i :: 5 <= i < 5 + drained ==> r[i] == ""
    ensures r[5 + drained] == Footer
  {
    Head(hasCode) + Blanks(drained) + [Footer]
  }

  /**
   * Writes the page for the request whose first line was already read;
   * `headers` are the lines the client sends after it, up to end of input.
   * Returns the lines written and how many header lines were read.
   */
  method WriteResponse(hasCode: bool, headers: seq<string>) returns (written: seq<string>, read: nat)
    ensures written == Page(hasCode, LeadingNonEmpty(headers))
    ensures read == if LeadingNonEmpty(headers) < |headers| then LeadingNonEmpty(headers) + 1 else |headers|
  {
    written := Head(hasCode);
    read := 0;
    var drained := 0;
    while read < |headers|
      invariant drained == read <= |headers|
      invariant forall i :: 0 <= i < read ==> headers[i] != ""
      invariant written == Head(hasCode) + Blanks(drained)
    {
      var m := headers[read];
      read := read + 1;
      if |m| == 0 {
        break;
      }
      written := written + [""];
      drained := drained + 1;
    }
    assert drained == LeadingNonEmpty(headers) by {
      DrainStopsAt(headers, drained);
    }
    written := written + [Footer];
  }

  /** The drain count is pinned down by where the first empty line sits. */
  lemma {:induction false} DrainStopsAt(lines: seq<string>, n: nat)
    requires n <= |lines|
    requires forall i :: 0 <= i < n ==> lines[i] != ""
    requires n < |lines| ==> lines[n] == ""
    ensures LeadingNonEmpty(lines) == n
  {
    if n > 0 {
      DrainStopsAt(lines[1..], n - 1);
    }
  }
}
