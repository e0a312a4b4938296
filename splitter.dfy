/**
 * `split_http_response` from src/shared.c: split a NUL-terminated HTTP
 * response at the first empty line, the "\r\n\r\n" that separates the
 * headers from the entity body (section 4.1 of RFC 1945). It works in place:
 * the first byte of the delimiter is overwritten with NUL, and the two
 * results are positions in the same buffer.
 */
module Splitter {
  import opened Wrappers
  import opened Transport

  const Nul: byte := 0
  const Cr: byte := 13
  const Lf: byte := 10

  /** "\r\n\r\n" */
  const EmptyLine: seq<byte> := [Cr, Lf, Cr, Lf]

  /** The delimiter starts at `j` in `text`. */
  predicate EmptyLineAt(text: seq<byte>, j: nat)
  {
    j + 4 <= |text| && text[j..j + 4] == EmptyLine
  }

  predicate HasEmptyLine(text: seq<byte>)
  {
    exists j: nat | j < |text| :: EmptyLineAt(text, j)
  }

  /** `strlen`: the position of the first NUL, for a sequence that holds one. */
  function StrLen(s: seq<byte>): (n: nat)
    requires Nul in s
    ensures n < |s| && s[n] == Nul && Nul !in s[..n]
  {
    if s[0] == Nul then 0
    else
      assert Nul in s[1..];
      var n := StrLen(s[1..]);
      assert s[..n + 1] == [s[0]] + s[1..][..n];
      n + 1
  }

  /** Any position that holds a NUL and has none before it is the string's length. */
  lemma StrLenUnique(s: seq<byte>, k: nat)
    requires k < |s| && s[k] == Nul && Nul !in s[..k]
    ensures StrLen(s) == k
  {
  }

  /** The C string at position `from` of a buffer. */
  function CString(s: seq<byte>, from: nat): (r: seq<byte>)
    requires from <= |s| && Nul in s[from..]
    ensures Nul !in r && from + |r| < |s| && s[from + |r|] == Nul
  {
    s[from..][..StrLen(s[from..])]
  }

  /** The text a C string routine sees in a terminated buffer. */
  function Text(s: seq<byte>): (r: seq<byte>)
    requires Nul in s
    ensures |r| < |s| && Nul !in r && r == s[..|r|] && s[|r|] == Nul
  {
    CString(s, 0)
  }

  /** `strstr(text, "\r\n\r\n")` from position `i` on: the first occurrence, if any. */
  function FindEmptyLine(text: seq<byte>, i: nat): (r: Option<nat>)
    requires i <= |text|
    ensures r.Some? ==> i <= r.value && EmptyLineAt(text, r.value)
    ensures r.Some? ==> forall j: nat :: i <= j < r.value ==> !EmptyLineAt(text, j)
    ensures r.None? ==> forall j: nat :: i <= j ==> !EmptyLineAt(text, j)
    decreases |text| - i
  {
    if i + 4 > |text| then None
    else if text[i..i + 4] == EmptyLine then Some(i)
    else FindEmptyLine(text, i + 1)
  }

  /** Why a response cannot be split. */
  datatype SplitError = MissingDelimiter

  /**
   * The split as values: the headers before the first empty line and the
   * content after it.
   */
  function Split(text: seq<byte>): (r: Result<(seq<byte>, seq<byte>), SplitError>)
    ensures r.Err? <==> !HasEmptyLine(text)
    ensures r.Ok? ==> r.value.0 + EmptyLine + r.value.1 == text
    ensures r.Ok? ==> forall j: nat :: j < |r.value.0| ==> !EmptyLineAt(text, j)
    ensures r.Ok? ==> !HasEmptyLine(r.value.0)
  {
    match FindEmptyLine(text, 0)
    case None => Err(MissingDelimiter)
    case Some(pos) =>
      var headers := text[..pos];
      var content := text[pos + 4..];
      assert headers + EmptyLine + content == text by {
        assert text[pos..pos + 4] == EmptyLine;
        assert text == text[..pos] + text[pos..pos + 4] + text[pos + 4..];
      }
      assert !HasEmptyLine(headers) by {
        forall j: nat | EmptyLineAt(headers, j) ensures false {
          assert headers[j..j + 4] == text[j..j + 4];
          assert EmptyLineAt(text, j);
        }
      }
      Ok((headers, content))
  }

  /** `Split` cuts at the position `strstr` finds. */
  lemma SplitAtFirst(text: seq<byte>, pos: nat)
    requires FindEmptyLine(text, 0) == Some(pos)
    ensures pos + 4 <= |text| && Split(text) == Ok((text[..pos], text[pos + 4..]))
  {
  }

  /** A response whose headers are "HDR" and whose body is "BODY". */
  lemma SplitExample()
    ensures Split([72, 68, 82, Cr, Lf, Cr, Lf, 66, 79, 68, 89]) == Ok(([72, 68, 82], [66, 79, 68, 89]))
  {
    var text: seq<byte> := [72, 68, 82, Cr, Lf, Cr, Lf, 66, 79, 68, 89];
    assert text[3..7] == EmptyLine;
    assert FindEmptyLine(text, 3) == Some(3);
    assert text[2..6][0] != EmptyLine[0];
    assert FindEmptyLine(text, 2) == Some(3);
    assert text[1..5][0] != EmptyLine[0];
    assert FindEmptyLine(text, 1) == Some(3);
    assert text[0..4][0] != EmptyLine[0];
    assert FindEmptyLine(text, 0) == Some(3);
    assert text[..3] == [72, 68, 82] && text[7..] == [66, 79, 68, 89];
  }

  /** The split is unique: any decomposition with delimiter-free, non-overlapping headers is the one `Split` finds. */
  lemma SplitIsFirst(text: seq<byte>, headers: seq<byte>, content: seq<byte>)
    requires headers + EmptyLine + content == text
    requires forall j: nat :: j < |headers| ==> !EmptyLineAt(text, j)
    ensures Split(text) == Ok((headers, content))
  {
    var h := |headers|;
    assert text[h..h + 4] == EmptyLine;
    assert EmptyLineAt(text, h);
    var r := Split(text);
    var pos := |r.value.0|;
    assert EmptyLineAt(text, pos) by {
      assert text[pos..pos + 4] == (r.value.0 + EmptyLine + r.value.1)[pos..pos + 4];
    }
    assert pos == h;
    assert headers == text[..h];
    assert r.value.0 == text[..h];
    assert content == text[h + 4..];
    assert r.value.1 == text[h + 4..];
  }

  /**
   * Writing a NUL over the first byte of the first delimiter ends the
   * string at 0 just before it, and leaves the string after the delimiter
   * reading to the original end.
   */
  lemma CutAtDelimiter(s: seq<byte>, pos: nat)
    requires Nul in s && FindEmptyLine(Text(s), 0) == Some(pos)
    ensures var t := s[pos := Nul]; var text := Text(s);
      && pos + 4 <= |text| && Nul in t && StrLen(t) == pos
      && CString(t, 0) == text[..pos]
      && Nul in t[pos + 4..] && CString(t, pos + 4) == text[pos + 4..]
  {
    HeadersEndAtCut(s, pos);
    ContentAfterCut(s, pos);
  }

  lemma HeadersEndAtCut(s: seq<byte>, pos: nat)
    requires Nul in s && pos < |Text(s)|
    ensures var t := s[pos := Nul]; Nul in t && StrLen(t) == pos && CString(t, 0) == Text(s)[..pos]
  {
    var t := s[pos := Nul];
    assert t[..pos] == Text(s)[..pos];
    StrLenUnique(t, pos);
    assert t[0..] == t;
  }

  lemma ContentAfterCut(s: seq<byte>, pos: nat)
    requires Nul in s && pos + 4 <= |Text(s)|
    ensures var t := s[pos := Nul]; Nul in t[pos + 4..] && CString(t, pos + 4) == Text(s)[pos + 4..]
  {
    var t := s[pos := Nul];
    var text := Text(s);
    var content := pos + 4;
    assert t[content..] == s[content..];
    assert t[content..][|text| - content] == Nul;
    StrLenUnique(t[content..], |text| - content) by {
      assert t[content..][..|text| - content] == text[content..];
    }
  }

  /** The two pointers `split_http_response` returns, as offsets into the buffer. */
  datatype Parts = Parts(headers: nat, content: nat)

  /**
   * `split_http_response(buf, len)`. `len` is never read, as in the source:
   * the search, and the content, run to the buffer's first NUL. A missing
   * delimiter is the source's fatal "Empty response!" exit.
   */
  method SplitHttpResponse(buf: array<byte>, len: int) returns (r: Result<Parts, SplitError>)
    requires Nul in buf[..]
    modifies buf
    ensures var text := Text(old(buf[..]));
      match FindEmptyLine(text, 0)
      case None => r == Err(MissingDelimiter) && buf[..] == old(buf[..])
      case Some(pos) => r == Ok(Parts(0, pos + 4)) && buf[..] == old(buf[..])[pos := Nul]
    ensures r.Ok? ==>
      && r.value.content <= buf.Length && Nul in buf[r.value.content..]
      && Split(Text(old(buf[..]))) == Ok((CString(buf[..], r.value.headers), CString(buf[..], r.value.content)))
  {
    var del := FindEmptyLine(Text(buf[..]), 0);
    if del.None? {
      return Err(MissingDelimiter);
    }
    var pos := del.value;
    ghost var before := buf[..];
    CutAtDelimiter(before, pos);
    SplitAtFirst(Text(before), pos);
    buf[pos] := Nul;
    assert buf[..] == before[pos := Nul];
    var headers := 0;
    var content := headers + StrLen(buf[..]) + |EmptyLine|;
    r := Ok(Parts(headers, content));
  }
}
