/*
 * The string helpers of the X11 copy/paste plugin: the last directory name
 * of a path, the tokenising and RFC 1630 escaping of a NUL-delimited path
 * list, the assembly of a URI list for a clipboard target, and the prefix
 * stripping applied to a pasted selection.
 */
module CopyPasteUIX11 {

  // ---------------------------------------------------------------------
  // GetLastDirName
  // ---------------------------------------------------------------------

  const DIRSEPC: char := '/'

  /** Where the run of non-separators that ends at `i` starts. */
  function NameStart(s: string, i: nat): (k: nat)
    requires i <= |s|
    ensures k <= i
    ensures k == 0 || s[k - 1] == DIRSEPC
    ensures forall m :: k <= m < i ==> s[m] != DIRSEPC
  {
    if i == 0 || s[i - 1] == DIRSEPC then i else NameStart(s, i - 1)
  }

  /** Where the name ends (exclusive): one trailing separator is ignored. */
  function NameEnd(s: string): nat
  {
    if |s| > 0 && s[|s| - 1] == DIRSEPC then |s| - 1 else |s|
  }

  /**
   * The last directory name of an absolute path: empty unless the path
   * starts with a separator and leaves at least two characters once one
   * trailing separator is ignored; otherwise the run of characters after
   * the last separator before that end.
   */
  function LastDirName(s: string): string
  {
    var e := NameEnd(s);
    if e <= 1 || s[0] != DIRSEPC then "" else s[NameStart(s, e)..e]
  }

  /** A path that does not start with a separator has no last dir name. */
  lemma RelativePathHasNoDirName(s: string)
    requires |s| > 0 && s[0] != DIRSEPC
    ensures LastDirName(s) == ""
  {
  }

  /**
   * The name is what lies strictly between the separator before it and the
   * name end, and it holds no separator.
   */
  lemma LastDirNameShape(s: string)
    requires LastDirName(s) != ""
    ensures var e, r := NameEnd(s), LastDirName(s);
            && |r| < e && s[e - |r| - 1] == DIRSEPC && s[e - |r|..e] == r && DIRSEPC !in r
  {
    var e := NameEnd(s);
    var k := NameStart(s, e);
    assert s[0] == DIRSEPC;
    assert 0 < k;
    var r := s[k..e];
    assert forall m :: 0 <= m < |r| ==> r[m] == s[k + m];
  }

  /**
   * CopyPasteUIX11::GetLastDirName with `end` as a signed index: step back
   * over one trailing separator, give up on a short or relative path, and
   * scan backwards to the separator before the name.
   */
  method GetLastDirName(str: string) returns (ret: string)
    ensures ret == LastDirName(str)
  {
    var end: int := |str| - 1;
    if end >= 0 && str[end] == DIRSEPC {
      end := end - 1;
    }
    assert end == NameEnd(str) - 1;
    if end <= 0 || str[0] != DIRSEPC {
      return "";
    }
    var start := end;
    while str[start] != DIRSEPC
      invariant 0 <= start <= end
      invariant NameStart(str, start + 1) == NameStart(str, end + 1)
      decreases start
    {
      start := start - 1;
    }
    ret := str[start + 1..end + 1];
  }

  /** size_t is 64 bits wide on the platforms the plugin targets. */
  const SIZE_T_LIMIT: int := 0x1_0000_0000_0000_0000

  /** Unsigned size_t subtraction, wrapping below zero. */
  function SizeSub(a: nat, b: nat): (r: nat)
    ensures r < SIZE_T_LIMIT
  {
    (a - b) % SIZE_T_LIMIT
  }

  /**
   * `end` as the source computes it in size_t: bytes() - 1, stepped back
   * once over a trailing separator. The `end >= 0` test is always true for
   * an unsigned value, so nothing stops the step from wrapping.
   */
  function LastDirEndAsWritten(str: string): (end: nat)
    requires |str| > 0
    ensures end < SIZE_T_LIMIT
    ensures |str| < SIZE_T_LIMIT ==> (end < |str| <==> str != "/")
  {
    var end := SizeSub(|str|, 1);
    if str[end] == DIRSEPC then SizeSub(end, 1) else end
  }

  /**
   * On the root path "/" the step wraps to SIZE_MAX: `end <= 0` is false,
   * the path starts with a separator, and the backward scan starts reading
   * at an index past the end of the string. On the empty path already
   * `bytes() - 1` wraps, and `str[end]` is read at SIZE_MAX.
   */
  lemma ShortPathOverrunsAsWritten()
    ensures var end := LastDirEndAsWritten("/");
            && end == SIZE_T_LIMIT - 1
            && !(end <= 0) && "/"[0] == DIRSEPC
            && end >= |"/"|
    ensures var end := SizeSub(|""|, 1);
            && end == SIZE_T_LIMIT - 1
            && end >= |""|
  {
  }

  /** On every other non-empty path the source's `end` is the signed one. */
  lemma LastDirEndAgrees(str: string)
    requires 0 < |str| < SIZE_T_LIMIT && str != "/"
    ensures LastDirEndAsWritten(str) == NameEnd(str) - 1
  {
    var end := |str| - 1;
    assert SizeSub(|str|, 1) == end;
    if str[end] == DIRSEPC {
      assert SizeSub(end, 1) == end - 1;
    }
  }

  // ---------------------------------------------------------------------
  // GetNextPath
  // ---------------------------------------------------------------------

  /** A byte of a utf8string (std::string), read as an unsigned char. */
  type Byte = bv8

  const NUL: Byte := 0
  const PERCENT: Byte := 0x25

  /** The bytes RFC 1630 asks to escape in a path: '#', '?', '*', '!', '%'
      and every byte of a multi-byte UTF-8 sequence. */
  predicate IsReserved(b: Byte)
  {
    b == 0x23 || b == 0x3F || b == 0x2A || b == 0x21 || b == PERCENT || b >= 0x80
  }

  /** The Dec2Hex table: upper-case hexadecimal digits. */
  function Dec2Hex(d: Byte): Byte
    requires d < 16
  {
    if d < 10 then 0x30 + d else 0x41 + (d - 10)
  }

  predicate IsHexDigit(h: Byte)
  {
    0x30 <= h <= 0x39 || 0x41 <= h <= 0x46
  }

  function HexValue(h: Byte): (d: Byte)
    requires IsHexDigit(h)
  {
    if h <= 0x39 then h - 0x30 else h - 0x41 + 10
  }

  lemma HexDigitRoundTrip(d: Byte)
    requires d < 16
    ensures IsHexDigit(Dec2Hex(d)) && HexValue(Dec2Hex(d)) == d && !IsReserved(Dec2Hex(d))
  {
  }

  /** The two nibbles put back together give the byte. */
  lemma NibblesRoundTrip(b: Byte)
    ensures (b >> 4) < 16 && (b & 0xF) < 16 && ((b >> 4) << 4) | (b & 0xF) == b
  {
  }

  /** One byte as GetNextPath leaves it: '%', high nibble, low nibble for a
      reserved byte, the byte itself otherwise. */
  function EscapeByte(b: Byte): seq<Byte>
  {
    if IsReserved(b) then [PERCENT, Dec2Hex(b >> 4), Dec2Hex(b & 0xF)] else [b]
  }

  /** Every byte of `s` as GetNextPath leaves it, in order. */
  function Escape(s: seq<Byte>): seq<Byte>
  {
    if s == [] then [] else Escape(s[..|s| - 1]) + EscapeByte(s[|s| - 1])
  }

  /** RFC 1630 decoding: a '%' with two hex digits stands for one byte. */
  function Unescape(s: seq<Byte>): seq<Byte>
  {
    if s == [] then []
    else if |s| >= 3 && s[0] == PERCENT && IsHexDigit(s[1]) && IsHexDigit(s[2])
    then [(HexValue(s[1]) << 4) | HexValue(s[2])] + Unescape(s[3..])
    else [s[0]] + Unescape(s[1..])
  }

  lemma {:induction false} EscapeAppend(a: seq<Byte>, b: seq<Byte>)
    ensures Escape(a + b) == Escape(a) + Escape(b)
    decreases |b|
  {
    if b == [] {
      assert a + b == a;
    } else {
      var b' := b[..|b| - 1];
      assert (a + b)[..|a + b| - 1] == a + b';
      EscapeAppend(a, b');
    }
  }

  /** Escaping read from the front: the first byte, then the rest. */
  lemma EscapeFront(s: seq<Byte>)
    requires s != []
    ensures Escape(s) == EscapeByte(s[0]) + Escape(s[1..])
  {
    var x := [s[0]];
    assert x + s[1..] == s;
    EscapeAppend(x, s[1..]);
    assert x[..0] == [];
    assert Escape(x) == EscapeByte(s[0]);
  }

  /** Decoding undoes the escape of one byte in front of any text. */
  lemma UnescapeByte(b: Byte, rest: seq<Byte>)
    ensures Unescape(EscapeByte(b) + rest) == [b] + Unescape(rest)
  {
    var e := EscapeByte(b) + rest;
    if IsReserved(b) {
      var h, l := b >> 4, b & 0xF;
      NibblesRoundTrip(b);
      HexDigitRoundTrip(h);
      HexDigitRoundTrip(l);
      assert e[0] == PERCENT && e[1] == Dec2Hex(h) && e[2] == Dec2Hex(l);
      assert e[3..] == rest;
    } else {
      assert e[0] == b != PERCENT;
      assert e[1..] == rest;
    }
  }

  /** Escaping loses nothing: decoding gives the original bytes back. */
  lemma {:induction false} UnescapeEscape(s: seq<Byte>)
    ensures Unescape(Escape(s)) == s
  {
    if s != [] {
      EscapeFront(s);
      UnescapeEscape(s[1..]);
      UnescapeByte(s[0], Escape(s[1..]));
    }
  }

  /**
   * The escaped text holds no reserved byte other than the '%' that opens
   * an escape: the inserted hex digits are never reserved, so the output
   * is never escaped a second time.
   */
  lemma {:induction false} EscapeIsClean(s: seq<Byte>)
    ensures forall k :: 0 <= k < |Escape(s)| && IsReserved(Escape(s)[k]) ==> Escape(s)[k] == PERCENT
  {
    if s != [] {
      var p := Escape(s[..|s| - 1]);
      var b := s[|s| - 1];
      EscapeIsClean(s[..|s| - 1]);
      if IsReserved(b) {
        HexDigitRoundTrip(b >> 4);
        HexDigitRoundTrip(b & 0xF);
      }
      var e := Escape(s);
      forall k | 0 <= k < |e| && IsReserved(e[k]) ensures e[k] == PERCENT {
        if k < |p| {
          assert e[k] == p[k];
        }
      }
    }
  }

  /**
   * Every '%' of the escaped text opens a complete escape: two hex digits
   * follow it. A '%' of the input is itself escaped, so none is left bare.
   */
  lemma {:induction false} EscapePercentOpensEscape(s: seq<Byte>)
    ensures forall k :: 0 <= k < |Escape(s)| && Escape(s)[k] == PERCENT ==>
              k + 2 < |Escape(s)| && IsHexDigit(Escape(s)[k + 1]) && IsHexDigit(Escape(s)[k + 2])
  {
    if s != [] {
      var p := Escape(s[..|s| - 1]);
      var b := s[|s| - 1];
      EscapePercentOpensEscape(s[..|s| - 1]);
      if IsReserved(b) {
        HexDigitRoundTrip(b >> 4);
        HexDigitRoundTrip(b & 0xF);
      }
      var e := Escape(s);
      forall k | 0 <= k < |e| && e[k] == PERCENT
        ensures k + 2 < |e| && IsHexDigit(e[k + 1]) && IsHexDigit(e[k + 2])
      {
        if k < |p| {
          assert e[k] == p[k];
          if k + 2 < |p| {
            assert e[k + 1] == p[k + 1] && e[k + 2] == p[k + 2];
          }
        }
      }
    }
  }

  /** Escaping neither adds nor removes a NUL, so the terminator of the
      escaped segment is still the first NUL after it. */
  lemma {:induction false} EscapeKeepsNul(s: seq<Byte>)
    ensures NUL in Escape(s) <==> NUL in s
  {
    if s != [] {
      var b := s[|s| - 1];
      EscapeKeepsNul(s[..|s| - 1]);
      if IsReserved(b) {
        HexDigitRoundTrip(b >> 4);
        HexDigitRoundTrip(b & 0xF);
      }
      assert s == s[..|s| - 1] + [b];
    }
  }

  /** The end of the segment that starts at `i`: the first NUL at or after
      `i`, or the end of the string. */
  function SegmentEnd(s: seq<Byte>, i: nat): (e: nat)
    requires i <= |s|
    ensures i <= e <= |s|
    ensures e == |s| || s[e] == NUL
    ensures forall k :: i <= k < e ==> s[k] != NUL
    decreases |s| - i
  {
    if i == |s| || s[i] == NUL then i else SegmentEnd(s, i + 1)
  }

  /**
   * The edit GetNextPath makes at a reserved byte: replace it with '%',
   * then insert the high and the low hex digit after it.
   */
  method EscapeAt(s: seq<Byte>, i: nat) returns (s': seq<Byte>)
    requires i < |s| && IsReserved(s[i])
    ensures s' == s[..i] + EscapeByte(s[i]) + s[i + 1..]
  {
    var ubyte := s[i];
    s' := s[..i] + [PERCENT] + s[i + 1..];
    s' := s'[..i + 1] + [Dec2Hex(ubyte >> 4)] + s'[i + 1..];
    s' := s'[..i + 2] + [Dec2Hex(ubyte & 0xF)] + s'[i + 2..];
  }

  /**
   * The state of GetNextPath's loop: `str` from `index` to `j` has been
   * escaped in place into `s[index..i]`; before and after, `s` is `str`.
   */
  ghost predicate EscapedUpTo(str: seq<Byte>, index: nat, j: nat, s: seq<Byte>, i: nat)
  {
    && index <= j <= |str| && index <= i <= |s| && |s| - i == |str| - j
    && s[..index] == str[..index] && s[index..i] == Escape(str[index..j]) && s[i..] == str[j..]
  }

  /** Escaping one more byte appends that byte's escape. */
  lemma EscapeSnoc(u: seq<Byte>, x: Byte)
    ensures Escape(u + [x]) == Escape(u) + EscapeByte(x)
  {
    var t := u + [x];
    assert t[..|t| - 1] == u;
  }

  /** Replacing the element at `i0` of `s0` by `m`, read back as slices. */
  lemma SpliceSlices(s0: seq<Byte>, i0: nat, m: seq<Byte>, s: seq<Byte>, index: nat)
    requires index <= i0 < |s0| && s == s0[..i0] + m + s0[i0 + 1..]
    ensures s[..index] == s0[..index]
    ensures s[index..i0 + |m|] == s0[index..i0] + m
    ensures s[i0 + |m|..] == s0[i0 + 1..]
  {
    var a := s0[..i0];
    assert s[..index] == a[..index];
    assert s[index..i0 + |m|] == a[index..] + m;
  }

  /** Escaping the byte at `j` in place extends the escaped part by one byte. */
  lemma EscapeStep(str: seq<Byte>, index: nat, j: nat, i0: nat, s0: seq<Byte>, s: seq<Byte>)
    requires EscapedUpTo(str, index, j, s0, i0) && j < |str|
    requires s == s0[..i0] + EscapeByte(str[j]) + s0[i0 + 1..]
    ensures EscapedUpTo(str, index, j + 1, s, i0 + |EscapeByte(str[j])|)
  {
    assert str[index..j + 1] == str[index..j] + [str[j]];
    EscapeSnoc(str[index..j], str[j]);
    assert s0[i0..] == str[j..];
    SpliceSlices(s0, i0, EscapeByte(str[j]), s, index);
    assert s0[i0 + 1..] == s0[i0..][1..];
  }

  /** One pass of GetNextPath's loop: escape the byte under the cursor in
      place if it is reserved, and step past what was written. */
  method EscapeNext(ghost str: seq<Byte>, ghost index: nat, ghost j: nat, s: seq<Byte>, i: nat)
    returns (s': seq<Byte>, i': nat)
    requires EscapedUpTo(str, index, j, s, i) && i < |s|
    ensures j < |str| && EscapedUpTo(str, index, j + 1, s', i')
  {
    assert s[i..] == str[j..];
    assert s[i] == str[j];
    s', i' := s, i;
    if IsReserved(s[i]) {
      s' := EscapeAt(s, i);
      i' := i + 2;
    } else {
      assert s == s[..i] + EscapeByte(str[j]) + s[i + 1..];
    }
    i' := i' + 1;
    EscapeStep(str, index, j, i, s, s');
  }

  /**
   * The loop of GetNextPath: escapes, in place, every byte from `index` up
   * to the next NUL or the end, and stops on that terminator.
   */
  method EscapeSegment(str: seq<Byte>, index: nat) returns (s: seq<Byte>, i: nat)
    requires index <= |str|
    ensures EscapedUpTo(str, index, SegmentEnd(str, index), s, i)
  {
    s := str;
    i := index;
    ghost var j := index;
    while i < |s| && s[i] != NUL
      invariant EscapedUpTo(str, index, j, s, i)
      invariant SegmentEnd(str, j) == SegmentEnd(str, index)
      decreases |str| - j
    {
      s, i := EscapeNext(str, index, j, s, i);
      j := j + 1;
    }
    assert s[i..] == str[j..];
    assert j == |str| || str[j] == NUL;
  }

  /**
   * CopyPasteUIX11::GetNextPath: past the end, "" with nothing changed.
   * Otherwise the segment from `index` to the next NUL (or the end) is
   * escaped in place in `str`, returned, and `index` moves one past its
   * terminator; the rest of the string is untouched.
   */
  method GetNextPath(str: seq<Byte>, index: nat) returns (ret: seq<Byte>, str': seq<Byte>, index': nat)
    ensures index >= |str| ==> ret == [] && str' == str && index' == index
    ensures index < |str| ==>
              var e := SegmentEnd(str, index);
              && ret == Escape(str[index..e])
              && str' == str[..index] + ret + str[e..]
              && index' == index + |ret| + 1
    ensures index < |str| ==> str'[index' - 1..] == str[SegmentEnd(str, index)..]
  {
    if index >= |str| {
      return [], str, index;
    }
    var s, i := EscapeSegment(str, index);
    ret := s[index..i];
    assert s[..index] == str[..index] && s[i..] == str[SegmentEnd(str, index)..];
    assert s == s[..index] + ret + s[i..];
    str' := s;
    index' := i + 1;
  }

  // ---------------------------------------------------------------------
  // URI list for a file-contents request
  // ---------------------------------------------------------------------

  /** The clipboard targets the request callback tells apart. */
  datatype TargetInfo = GnomeCopiedFiles | UriList | OtherTarget

  const FCP_GNOME_LIST_PRE: string := "file://"
  const FCP_GNOME_LIST_POST: string := "\n"
  const DND_URI_LIST_PRE_KDE: string := "file:"
  const DND_URI_LIST_POST: string := "\r\n"
  const GNOME_COPY_HEADER: string := "copy\n"

  /** `pre + item + post` for each item, in list order. */
  function UriConcat(items: seq<string>, pre: string, post: string): string
  {
    if items == [] then ""
    else UriConcat(items[..|items| - 1], pre, post) + pre + items[|items| - 1] + post
  }

  /** The list of a concatenation is the concatenation of the lists. */
  lemma {:induction false} UriConcatAppend(a: seq<string>, b: seq<string>, pre: string, post: string)
    ensures UriConcat(a + b, pre, post) == UriConcat(a, pre, post) + UriConcat(b, pre, post)
    decreases |b|
  {
    if b == [] {
      assert a + b == a;
    } else {
      var b' := b[..|b| - 1];
      assert (a + b)[..|a + b| - 1] == a + b';
      UriConcatAppend(a, b', pre, post);
    }
  }

  /**
   * The selection data LocalGetFileContentsRequestCB provides: nothing for
   * an unknown target; the KDE list for a URI-list target; for the GNOME
   * target, "copy\n" then the GNOME list with its last character erased.
   */
  method FileContentsRequest(info: TargetInfo, files: seq<string>) returns (data: string)
    ensures info == OtherTarget ==> data == ""
    ensures info == UriList ==> data == UriConcat(files, DND_URI_LIST_PRE_KDE, DND_URI_LIST_POST)
    ensures info == GnomeCopiedFiles ==>
              data + FCP_GNOME_LIST_POST == GNOME_COPY_HEADER + UriConcat(files, FCP_GNOME_LIST_PRE, FCP_GNOME_LIST_POST)
  {
    data := "";
    var uriList := "";
    var pre, post;
    if info == GnomeCopiedFiles {
      uriList := GNOME_COPY_HEADER;
      pre, post := FCP_GNOME_LIST_PRE, FCP_GNOME_LIST_POST;
    } else if info == UriList {
      pre, post := DND_URI_LIST_PRE_KDE, DND_URI_LIST_POST;
    } else {
      return;
    }
    ghost var header := uriList;
    var i := 0;
    while i < |files|
      invariant 0 <= i <= |files|
      invariant uriList == header + UriConcat(files[..i], pre, post)
    {
      assert files[..i + 1][..i] == files[..i];
      uriList := uriList + pre + files[i] + post;
      i := i + 1;
    }
    assert files[..i] == files;
    if info == GnomeCopiedFiles {
      uriList := uriList[..|uriList| - 1];
    }
    if |uriList| == 0 {
      return;
    }
    data := uriList;
  }

  /**
   * What Nautilus receives: the header, then one `file://` line per file,
   * with no newline after the last one (just "copy" for an empty list).
   */
  lemma {:induction false} GnomeListOmitsFinalPost(files: seq<string>, data: string)
    requires data + FCP_GNOME_LIST_POST == GNOME_COPY_HEADER + UriConcat(files, FCP_GNOME_LIST_PRE, FCP_GNOME_LIST_POST)
    ensures files == [] ==> data == "copy"
    ensures files != [] ==>
              data == GNOME_COPY_HEADER + UriConcat(files[..|files| - 1], FCP_GNOME_LIST_PRE, FCP_GNOME_LIST_POST)
                      + FCP_GNOME_LIST_PRE + files[|files| - 1]
  {
    var full := data + FCP_GNOME_LIST_POST;
    assert data == full[..|full| - 1];
    if files != [] {
      var head := GNOME_COPY_HEADER + UriConcat(files[..|files| - 1], FCP_GNOME_LIST_PRE, FCP_GNOME_LIST_POST)
                  + FCP_GNOME_LIST_PRE + files[|files| - 1];
      assert full == head + FCP_GNOME_LIST_POST;
      assert full[..|full| - 1] == head;
    } else {
      assert full == "copy\n";
    }
  }

  // ---------------------------------------------------------------------
  // Selection prefix stripping
  // ---------------------------------------------------------------------

  predicate IsBlank(c: char)
  {
    c == '\n' || c == '\r' || c == ' '
  }

  predicate HasPrefix(s: string, p: string)
  {
    |p| <= |s| && s[..|p|] == p
  }

  /** The selection after the optional "copy\n" and then the optional
      "cut\n" line GNOME puts before the file list. */
  function AfterMarker(source: string): string
  {
    var s := if HasPrefix(source, "copy\n") then source[5..] else source;
    if HasPrefix(s, "cut\n") then s[4..] else s
  }

  /** The text with its leading '\n', '\r' and ' ' removed. */
  function TrimBlanks(s: string): (r: string)
    ensures |r| <= |s| && r == s[|s| - |r|..]
    ensures forall k :: 0 <= k < |s| - |r| ==> IsBlank(s[k])
    ensures r == [] || !IsBlank(r[0])
  {
    if s != [] && IsBlank(s[0]) then TrimBlanks(s[1..]) else s
  }

  /** Trimming is idempotent: what is left has nothing more to strip. */
  lemma TrimBlanksIdempotent(s: string)
    ensures TrimBlanks(TrimBlanks(s)) == TrimBlanks(s)
  {
    var r := TrimBlanks(s);
    assert r == [] || !IsBlank(r[0]);
  }

  /**
   * The preprocessing in LocalGetSelectionFileList: strip a leading
   * "copy\n", then a leading "cut\n", then every leading '\n', '\r' and ' '.
   */
  method StripSelectionPrefix(source: string) returns (r: string)
    ensures r == TrimBlanks(AfterMarker(source))
  {
    r := source;
    if HasPrefix(r, "copy\n") {
      r := r[5..];
    }
    if HasPrefix(r, "cut\n") {
      r := r[4..];
    }
    ghost var marked := r;
    while |r| > 0 && IsBlank(r[0])
      invariant TrimBlanks(r) == TrimBlanks(marked)
    {
      r := r[1..];
    }
  }
}
