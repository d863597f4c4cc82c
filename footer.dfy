/** Pulling the POSIX TZ rule out of a TZif file (update/main.go:141-153).
    A TZif file starts with the magic "TZif" (section 3.1 of RFC 8536) and
    ends with a footer whose TZ string sits on the last line (section 3.3 of
    RFC 8536). The generator takes the bytes between the last newline before
    the final byte and the final byte itself. */
module Footer {

  datatype Option<T> = None | Some(value: T)

  /** The byte '\n'. */
  const Newline: bv8 := 0x0A

  /** The four bytes "TZif". */
  const Magic: seq<bv8> := [0x54, 0x5A, 0x69, 0x66]

  /** The index of the last `x` in `s`, or -1 when `s` holds none
      (`strings.LastIndexByte`). */
  function LastIndexOf(s: seq<bv8>, x: bv8): (i: int)
    ensures -1 <= i < |s|
    ensures 0 <= i ==> s[i] == x
    ensures forall j :: i < j < |s| ==> s[j] != x
  {
    if |s| == 0 then -1
    else if s[|s| - 1] == x then |s| - 1
    else LastIndexOf(s[..|s| - 1], x)
  }

  /** The four bytes `b[0:4]` reads. The buffer a file is read into has a
      capacity of at least 512 bytes and is zero-filled past the file's end,
      so for a file shorter than four bytes the slice is the file's bytes
      followed by zeros. */
  function Head(b: seq<bv8>): (h: seq<bv8>)
    ensures |h| == 4
    ensures forall i :: 0 <= i < 4 ==> h[i] == if i < |b| then b[i] else 0
  {
    (b + [0, 0, 0, 0])[..4]
  }

  /** The first four bytes read as "TZif" exactly when the file holds at
      least four bytes and starts with "TZif": "TZif" has no zero byte, so a
      short file's zero padding never matches. */
  lemma HeadIsMagic(b: seq<bv8>)
    ensures Head(b) == Magic <==> 4 <= |b| && b[..4] == Magic
  {
    if |b| < 4 {
      assert Head(b)[|b|] == 0 != Magic[|b|];
    } else {
      assert Head(b) == b[..4];
    }
  }

  /** The rule string of a TZif file, or `None` when the file is skipped: it
      is shorter than four bytes or does not start with "TZif", or no newline
      comes before its final byte. */
  function ExtractRule(b: seq<bv8>): (r: Option<seq<bv8>>)
    ensures r.None? <==> |b| < 4 || b[..4] != Magic || Newline !in b[..|b| - 1]
    ensures r.Some? ==>
      var n := |r.value|;
      n + 1 < |b| && b[|b| - 2 - n] == Newline && r.value == b[|b| - 1 - n .. |b| - 1]
    ensures r.Some? ==> Newline !in r.value
  {
    HeadIsMagic(b);
    if Head(b) != Magic then None
    else
      var i := LastIndexOf(b[..|b| - 1], Newline);
      if i < 0 then None else Some(b[i + 1 .. |b| - 1])
  }

  /** Building a file from a header that starts with "TZif", a newline, a
      rule without newlines and one final byte, and extracting its rule, gives
      the rule back. */
  lemma {:induction false} ExtractRuleRoundTrip(header: seq<bv8>, rule: seq<bv8>, last: bv8)
    requires 4 <= |header| && header[..4] == Magic
    requires Newline !in rule
    ensures ExtractRule(header + [Newline] + rule + [last]) == Some(rule)
  {
    var b := header + [Newline] + rule + [last];
    var body := b[..|b| - 1];
    assert b[..4] == header[..4];
    assert body == header + [Newline] + rule;
    assert body[|header|] == Newline;
    var i := LastIndexOf(body, Newline);
    assert forall j :: |header| < j < |body| ==> body[j] == rule[j - |header| - 1];
    assert i == |header|;
    assert b[i + 1 .. |b| - 1] == rule;
  }

  /** "TZif" followed by a single byte has no newline before its final byte,
      so the file is skipped. */
  lemma MagicPlusOneByteSkipped(x: bv8)
    ensures ExtractRule(Magic + [x]) == None
  {
    var b := Magic + [x];
    assert b[..|b| - 1] == Magic;
  }
}
