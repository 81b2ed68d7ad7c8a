/** The binary PPM ("P6") codec of ppm.c. A FILE* opened for reading is an
    InFile: a fixed sequence of bytes and a read position; one opened for
    writing is an OutFile: the bytes written so far. The library calls
    fscanf and fread are modelled by the functions ScanInt, ScanTag and
    the body layout; the loops of ppm.c are methods proved against the
    functions. */
module Ppm {
  import opened Wrappers
  import opened Images

  /** The value fgetc returns at the end of the stream. */
  const EOF: int := -1

  const TAB: byte := 9
  const NEWLINE: byte := 10
  const SPACE: byte := 32
  const HASH: byte := 35
  const PLUS: byte := 43
  const MINUS: byte := 45
  const ZERO: byte := 48
  const LETTER_P: byte := 80

  /** The header tag of a raw PPM file. */
  const P6: seq<byte> := [LETTER_P, ZERO + 6]

  /** isspace in the C locale: space, \t, \n, \v, \f and \r. */
  predicate IsSpace(c: int)
  {
    c == SPACE as int || TAB as int <= c <= 13
  }

  /** isdigit: '0' to '9'. */
  predicate IsDigit(c: int)
  {
    ZERO as int <= c <= ZERO as int + 9
  }

  /** What fgetc returns at position pos: the byte there, or EOF past the end. */
  function At(data: seq<byte>, pos: nat): (c: int)
    ensures c == EOF <==> pos >= |data|
    ensures c != EOF ==> 0 <= c < 256
  {
    if pos < |data| then data[pos] as int else EOF
  }

  // ---------------------------------------------------------------------
  // Specification of the reader

  /** The number of whitespace bytes ppm_read_whitespace consumes from pos:
      all of them when maxWhiteSpace is -1, at most maxWhiteSpace
      otherwise. It stops before the first byte that is not whitespace
      (SpaceRunSpec). */
  function SpaceRun(data: seq<byte>, pos: nat, maxWhiteSpace: int): (n: nat)
    requires pos <= |data|
    ensures pos + n <= |data|
    ensures maxWhiteSpace != -1 ==> n == 0 || n <= maxWhiteSpace
    decreases |data| - pos
  {
    if (maxWhiteSpace == -1 || 0 < maxWhiteSpace) && IsSpace(At(data, pos)) then
      1 + SpaceRun(data, pos + 1, Remaining(maxWhiteSpace, 1))
    else 0
  }

  /** Every byte SpaceRun consumes is whitespace; unless the limit was
      reached, the byte after them is not. */
  lemma {:induction false} SpaceRunSpec(data: seq<byte>, pos: nat, maxWhiteSpace: int)
    requires pos <= |data|
    ensures forall k :: pos <= k < pos + SpaceRun(data, pos, maxWhiteSpace) ==> IsSpace(data[k] as int)
    ensures maxWhiteSpace == -1 || SpaceRun(data, pos, maxWhiteSpace) < maxWhiteSpace ==>
      !IsSpace(At(data, pos + SpaceRun(data, pos, maxWhiteSpace)))
    decreases |data| - pos
  {
    if (maxWhiteSpace == -1 || 0 < maxWhiteSpace) && IsSpace(At(data, pos)) {
      SpaceRunSpec(data, pos + 1, Remaining(maxWhiteSpace, 1));
    }
  }

  /** The limit left after consuming used bytes; -1 stays unlimited. */
  function Remaining(maxWhiteSpace: int, used: nat): int
  {
    if maxWhiteSpace == -1 then -1 else maxWhiteSpace - used
  }

  /** The position just after the next '\n' from pos, or the end of the
      data when there is none. */
  function LineEnd(data: seq<byte>, pos: nat): (p: nat)
    requires pos <= |data|
    ensures pos <= p <= |data|
    ensures p == |data| || (pos < p && data[p - 1] == NEWLINE)
    decreases |data| - pos
  {
    if pos == |data| then pos
    else if data[pos] == NEWLINE then pos + 1
    else LineEnd(data, pos + 1)
  }

  /** No '\n' comes before the one LineEnd stops after. */
  lemma {:induction false} LineEndSpec(data: seq<byte>, pos: nat)
    requires pos <= |data|
    ensures forall k :: pos <= k < LineEnd(data, pos) - 1 ==> data[k] != NEWLINE
    ensures LineEnd(data, pos) == |data| && pos < |data| && data[|data| - 1] != NEWLINE ==>
      forall k :: pos <= k < |data| ==> data[k] != NEWLINE
    decreases |data| - pos
  {
    if pos < |data| && data[pos] != NEWLINE {
      LineEndSpec(data, pos + 1);
    }
  }

  /** The position after the comment lines of ppm_read_num: while the next
      byte is '#', everything up to and including the next '\n' is skipped. */
  function AfterComments(data: seq<byte>, pos: nat): (p: nat)
    requires pos <= |data|
    ensures pos <= p <= |data|
    ensures At(data, p) != HASH as int
    decreases |data| - pos
  {
    if At(data, pos) == HASH as int then AfterComments(data, LineEnd(data, pos + 1)) else pos
  }

  /** The number of consecutive decimal digits from pos. */
  function DigitRun(data: seq<byte>, pos: nat): (n: nat)
    requires pos <= |data|
    ensures pos + n <= |data|
    ensures !IsDigit(At(data, pos + n))
    ensures n > 0 ==> IsDigit(data[pos + n - 1] as int)
    decreases |data| - pos
  {
    if IsDigit(At(data, pos)) then 1 + DigitRun(data, pos + 1) else 0
  }

  /** Every byte of the run is a digit. */
  lemma {:induction false} DigitRunSpec(data: seq<byte>, pos: nat)
    requires pos <= |data|
    ensures forall k :: pos <= k < pos + DigitRun(data, pos) ==> IsDigit(data[k] as int)
    decreases |data| - pos
  {
    if IsDigit(At(data, pos)) {
      DigitRunSpec(data, pos + 1);
    }
  }

  /** The numeric value of a digit byte. */
  function DigitValue(c: byte): nat
  {
    if IsDigit(c as int) then c as int - ZERO as int else 0
  }

  /** The value of a string of decimal digits, most significant first. */
  function Decimal(ds: seq<byte>): nat
  {
    if |ds| == 0 then 0 else Decimal(ds[..|ds| - 1]) * 10 + DigitValue(ds[|ds| - 1])
  }

  /** The value of the digits data[lo..hi], read in place. */
  function DecimalAt(data: seq<byte>, lo: nat, hi: nat): nat
    requires lo <= hi <= |data|
    decreases hi
  {
    if lo == hi then 0 else DecimalAt(data, lo, hi - 1) * 10 + DigitValue(data[hi - 1])
  }

  /** Reading the digits in place is reading the slice. */
  lemma {:induction false} DecimalAtSlice(data: seq<byte>, lo: nat, hi: nat)
    requires lo <= hi <= |data|
    ensures DecimalAt(data, lo, hi) == Decimal(data[lo..hi])
    decreases hi
  {
    if lo < hi {
      DecimalAtSlice(data, lo, hi - 1);
      assert data[lo..hi][..hi - lo - 1] == data[lo..hi - 1];
    }
  }

  /** The outcome of fscanf's "%d": whether an integer was matched, its
      value, and where the scan stopped. */
  datatype Scan = Scan(matched: bool, value: int, next: nat)

  /** fscanf(fp, "%d", &val) from pos: leading whitespace, an optional sign,
      then at least one digit, as many as there are. Without a digit it
      fails, having consumed the whitespace and the sign. The value is an
      unbounded integer (the overflow of %d is not modelled). */
  function ScanInt(data: seq<byte>, pos: nat): (s: Scan)
    requires pos <= |data|
    ensures pos <= s.next <= |data|
    ensures s.matched ==> pos < s.next && IsDigit(data[s.next - 1] as int)
    ensures !IsDigit(At(data, s.next))
  {
    var start := pos + SpaceRun(data, pos, -1);
    var sign := if At(data, start) == PLUS as int || At(data, start) == MINUS as int then 1 else 0;
    var digits := start + sign;
    var n := DigitRun(data, digits);
    if n == 0 then Scan(false, 0, digits)
    else
      var v: int := DecimalAt(data, digits, digits + n);
      Scan(true, if At(data, start) == MINUS as int then -v else v, digits + n)
  }

  /** A value read from the data and the position after it. */
  datatype Number = Number(value: int, next: nat)

  /** ppm_read_num from pos: the integer after the comment lines, or -1
      when none follows, and the position after it. */
  function ReadNumber(data: seq<byte>, pos: nat): (r: Number)
    requires pos <= |data|
    ensures pos <= r.next <= |data|
  {
    var s := ScanInt(data, AfterComments(data, pos));
    if s.matched then Number(s.value, s.next) else Number(-1, s.next)
  }

  /** The number of consecutive bytes from pos that are not whitespace. */
  function NonSpaceRun(data: seq<byte>, pos: nat): (n: nat)
    requires pos <= |data|
    ensures pos + n <= |data|
    ensures pos + n == |data| || IsSpace(data[pos + n] as int)
    decreases |data| - pos
  {
    if pos < |data| && !IsSpace(data[pos] as int) then 1 + NonSpaceRun(data, pos + 1) else 0
  }

  /** fscanf(fp, "%19s\n", tag) from pos: the token of at most 19
      non-whitespace bytes after the leading whitespace, and the position
      after the whitespace that follows it. At the end of the data the
      token is empty (the C tag buffer is then left uninitialised). */
  function ScanTag(data: seq<byte>, pos: nat): (r: Token)
    requires pos <= |data|
    ensures |r.text| <= 19 && pos <= r.next <= |data|
  {
    var start := pos + SpaceRun(data, pos, -1);
    var len := if NonSpaceRun(data, start) < 19 then NonSpaceRun(data, start) else 19;
    Token(data[start..start + len], start + len + SpaceRun(data, start + len, -1))
  }

  /** The C string a tag buffer holds: its bytes up to the first 0 byte.
      strncmp(tag, "P6", 20) compares exactly this much of the token, so a
      0 byte read by "%19s" ends the comparison. */
  function CString(text: seq<byte>): (r: seq<byte>)
    ensures r <= text
    ensures forall i :: 0 <= i < |r| ==> r[i] != 0
    ensures |r| < |text| ==> text[|r|] == 0
  {
    if |text| == 0 || text[0] == 0 then []
    else [text[0]] + CString(text[1..])
  }

  /** strncmp(tag, "P6", 20) == 0. */
  predicate IsP6(text: seq<byte>)
  {
    CString(text) == P6
  }

  /** A token read from the data and the position after it. */
  datatype Token = Token(text: seq<byte>, next: nat)

  /** An image as ReadPPM returns it: dimensions and pixels. */
  datatype Decoded = Decoded(width: nat, height: nat, pixels: seq<Pixel>)

  /** The n pixels of a body starting at start: three bytes each, red,
      green and blue, with the alpha channel set to 255. */
  function BodyPixels(data: seq<byte>, start: nat, n: nat): (px: seq<Pixel>)
    requires start + 3 * n <= |data|
    ensures |px| == n
    ensures forall i :: 0 <= i < n ==>
      px[i] == Pixel(data[start + 3 * i], data[start + 3 * i + 1], data[start + 3 * i + 2], SET)
  {
    seq(n, i requires 0 <= i < n => Pixel(data[start + 3 * i], data[start + 3 * i + 1], data[start + 3 * i + 2], SET))
  }

  /** What ReadPPM learns from a header it accepts: the dimensions and
      where the pixel bytes begin. */
  datatype Dimensions = Dimensions(width: nat, height: nat, body: nat)

  /** The header part of ReadPPM on the data from pos: the tag must read
      "P6" up to its first 0 byte; the width and the height must be
      positive; the maximal colour value must be 255 and be followed by one
      whitespace byte. */
  function ParseHeader(data: seq<byte>, pos: nat): (r: Option<Dimensions>)
    requires pos <= |data|
    ensures !IsP6(ScanTag(data, pos).text) ==> r.None?
    ensures r.Some? ==> r.value.width > 0 && r.value.height > 0 && pos < r.value.body <= |data|
  {
    var tag := ScanTag(data, pos);
    if !IsP6(tag.text) then None
    else
      var size := Size(data, tag.next);
      if size.width <= 0 || size.height <= 0 then None
      else
        match Maxval(data, size.next)
        case None => None
        case Some(body) => Some(Dimensions(size.width, size.height, body))
  }

  /** The width and the height, each followed by whatever whitespace there
      is, and the position after them. */
  function Size(data: seq<byte>, pos: nat): (r: SizeRead)
    requires pos <= |data|
    ensures pos <= r.next <= |data|
  {
    var width := NumberAndSpace(data, pos);
    var height := NumberAndSpace(data, width.next);
    SizeRead(width.value, height.value, height.next)
  }

  /** ppm_read_num followed by ppm_read_whitespace without a limit. */
  function NumberAndSpace(data: seq<byte>, pos: nat): (r: Number)
    requires pos <= |data|
    ensures pos <= r.next <= |data|
  {
    var n := ReadNumber(data, pos);
    Number(n.value, n.next + SpaceRun(data, n.next, -1))
  }

  /** The width and the height as read, and the position after them. */
  datatype SizeRead = SizeRead(width: int, height: int, next: nat)

  /** The maximal colour value, which must be 255, and the one whitespace
      byte after it; the position of the body. */
  function Maxval(data: seq<byte>, pos: nat): (r: Option<nat>)
    requires pos <= |data|
    ensures r.Some? ==> ReadNumber(data, pos).value == 255
    ensures r.Some? ==> pos < r.value <= |data| && IsSpace(data[r.value - 1] as int)
  {
    var colors := ReadNumber(data, pos);
    if colors.value != 255 then None
    else if SpaceRun(data, colors.next, 1) != 1 then None
    else
      SpaceRunSpec(data, colors.next, 1);
      Some(colors.next + 1)
  }

  /** The pixel part of ReadPPM: width * height pixels of three bytes each
      from d.body on; a short body fails. */
  function ParseBody(data: seq<byte>, d: Dimensions): (r: Option<Decoded>)
    ensures r.Some? <==> d.body + 3 * (d.width * d.height) <= |data|
    ensures r.Some? ==> r.value.width == d.width && r.value.height == d.height
    ensures r.Some? ==> |r.value.pixels| == d.width * d.height
    ensures r.Some? ==> forall i :: 0 <= i < |r.value.pixels| ==> r.value.pixels[i].a == SET
  {
    var n := d.width * d.height;
    if d.body + 3 * n > |data| then None
    else Some(Decoded(d.width, d.height, BodyPixels(data, d.body, n)))
  }

  /** ReadPPM on the data from pos: an accepted header, then the pixels. */
  function ParsePPM(data: seq<byte>, pos: nat): (r: Option<Decoded>)
    requires pos <= |data|
    ensures !IsP6(ScanTag(data, pos).text) ==> r.None?
    ensures r.Some? ==> r.value.width > 0 && r.value.height > 0
  {
    match ParseHeader(data, pos)
    case None => None
    case Some(d) => ParseBody(data, d)
  }

  // ---------------------------------------------------------------------
  // Specification of the writer

  /** The decimal text "%d" prints for n: digits, most significant first,
      without leading zeros. */
  function DecimalText(n: nat): (t: seq<byte>)
    ensures 0 < |t|
  {
    var last := (ZERO as int + n % 10) as byte;
    if n < 10 then [last] else DecimalText(n / 10) + [last]
  }

  /** The text is all digits, has no leading zero, and its value is n. */
  lemma {:induction false} DecimalTextSpec(n: nat)
    ensures forall k :: 0 <= k < |DecimalText(n)| ==> IsDigit(DecimalText(n)[k] as int)
    ensures Decimal(DecimalText(n)) == n
    ensures 1 < |DecimalText(n)| ==> DecimalText(n)[0] != ZERO
  {
    if n >= 10 {
      DecimalTextSpec(n / 10);
      var t := DecimalText(n);
      assert t[..|t| - 1] == DecimalText(n / 10);
    }
  }

  /** The header WritePPM prints, "P6\n W H\n 255\n", followed by tail. */
  function HeaderThen(width: nat, height: nat, tail: seq<byte>): (h: seq<byte>)
  {
    [LETTER_P, ZERO + 6, NEWLINE, SPACE] + (DecimalText(width) + ([SPACE] + (DecimalText(height)
    + ([NEWLINE, SPACE] + (DecimalText(255) + ([NEWLINE] + tail))))))
  }

  /** The header WritePPM prints. */
  function Header(width: nat, height: nat): (h: seq<byte>)
  {
    HeaderThen(width, height, [])
  }

  /** Printing the header and then more bytes is printing the header
      followed by them. */
  lemma HeaderAppend(width: nat, height: nat, tail: seq<byte>)
    ensures Header(width, height) + tail == HeaderThen(width, height, tail)
  {
    var W, H, T := DecimalText(width), DecimalText(height), DecimalText(255);
    var A := [LETTER_P, ZERO + 6, NEWLINE, SPACE];
    calc {
      Header(width, height) + tail;
      (A + (W + ([SPACE] + (H + ([NEWLINE, SPACE] + (T + [NEWLINE])))))) + tail;
      A + ((W + ([SPACE] + (H + ([NEWLINE, SPACE] + (T + [NEWLINE]))))) + tail);
      A + (W + (([SPACE] + (H + ([NEWLINE, SPACE] + (T + [NEWLINE])))) + tail));
      A + (W + ([SPACE] + ((H + ([NEWLINE, SPACE] + (T + [NEWLINE]))) + tail)));
      A + (W + ([SPACE] + (H + (([NEWLINE, SPACE] + (T + [NEWLINE])) + tail))));
      A + (W + ([SPACE] + (H + ([NEWLINE, SPACE] + ((T + [NEWLINE]) + tail)))));
      A + (W + ([SPACE] + (H + ([NEWLINE, SPACE] + (T + ([NEWLINE] + tail))))));
    }
  }

  /** The body WritePPM writes: red, green and blue of every pixel in
      order; the alpha channel is not written. */
  function Body(px: seq<Pixel>): (b: seq<byte>)
    ensures |b| == 3 * |px|
  {
    if |px| == 0 then [] else Body(px[..|px| - 1]) + [px[|px| - 1].r, px[|px| - 1].g, px[|px| - 1].b]
  }

  /** The bytes 3i, 3i + 1 and 3i + 2 of the body are pixel i's red, green and blue. */
  lemma {:induction false} BodyAt(px: seq<Pixel>, i: nat)
    requires i < |px|
    ensures Body(px)[3 * i] == px[i].r && Body(px)[3 * i + 1] == px[i].g && Body(px)[3 * i + 2] == px[i].b
  {
    var m := |px| - 1;
    var prefix := Body(px[..m]);
    assert Body(px) == prefix + [px[m].r, px[m].g, px[m].b];
    if i < m {
      BodyAt(px[..m], i);
      assert px[..m][i] == px[i];
    }
  }

  /** Where the body of the file WritePPM writes begins. */
  function BodyStart(width: nat, height: nat): nat
  {
    11 + |DecimalText(width)| + |DecimalText(height)|
  }

  /** The whole file WritePPM writes for an image. */
  function Encode(width: nat, height: nat, px: seq<Pixel>): seq<byte>
  {
    HeaderThen(width, height, Body(px))
  }

  // ---------------------------------------------------------------------
  // Lemmas about the reader

  /** A comment line is skipped: ppm_read_num at a '#' reads on from the
      start of the next line. */
  lemma ReadNumberSkipsComment(data: seq<byte>, pos: nat)
    requires pos < |data| && data[pos] == HASH
    ensures ReadNumber(data, pos) == ReadNumber(data, LineEnd(data, pos + 1))
  {
  }

  /** Without a digit (after the comments, whitespace and sign)
      ppm_read_num returns -1. */
  lemma ReadNumberFails(data: seq<byte>, pos: nat)
    requires pos <= |data|
    requires !ScanInt(data, AfterComments(data, pos)).matched
    ensures ReadNumber(data, pos).value == -1
  {
  }

  /** A maximal run of digits is measured exactly by DigitRun. */
  lemma {:induction false} DigitRunExact(data: seq<byte>, pos: nat, n: nat)
    requires pos + n <= |data|
    requires forall k :: pos <= k < pos + n ==> IsDigit(data[k] as int)
    requires !IsDigit(At(data, pos + n))
    ensures DigitRun(data, pos) == n
    decreases n
  {
    if n > 0 {
      DigitRunExact(data, pos + 1, n - 1);
    }
  }

  /** A run of digits t at pos, followed by a byte that is not a digit
      (or by nothing), is measured by DigitRun and read by DecimalAt. */
  lemma DigitsAt(data: seq<byte>, pos: nat, t: seq<byte>)
    requires 0 < |t| && pos + |t| <= |data| && data[pos..pos + |t|] == t
    requires forall k :: 0 <= k < |t| ==> IsDigit(t[k] as int)
    requires !IsDigit(At(data, pos + |t|))
    ensures IsDigit(data[pos] as int)
    ensures DigitRun(data, pos) == |t| && DecimalAt(data, pos, pos + |t|) == Decimal(t)
  {
    SliceDigits(data, pos, t);
    DigitRunExact(data, pos, |t|);
    DecimalAtText(data, pos, t);
  }

  /** Reading digits in place where the slice is t is reading t. */
  lemma DecimalAtText(data: seq<byte>, pos: nat, t: seq<byte>)
    requires pos + |t| <= |data| && data[pos..pos + |t|] == t
    ensures DecimalAt(data, pos, pos + |t|) == Decimal(t)
  {
    DecimalAtSlice(data, pos, pos + |t|);
  }

  /** The bytes of a slice equal to a run of digits are digits. */
  lemma SliceDigits(data: seq<byte>, pos: nat, t: seq<byte>)
    requires pos + |t| <= |data| && data[pos..pos + |t|] == t
    requires forall k :: 0 <= k < |t| ==> IsDigit(t[k] as int)
    ensures forall k :: pos <= k < pos + |t| ==> IsDigit(data[k] as int)
  {
    forall k | pos <= k < pos + |t|
      ensures IsDigit(data[k] as int)
    {
      assert data[k] == t[k - pos];
    }
  }

  /** A number whose first byte is a digit scans without skipping
      anything: its digits are the whole run from pos. */
  lemma ScanAtDigit(data: seq<byte>, pos: nat, len: nat, n: nat)
    requires pos < |data| && IsDigit(data[pos] as int)
    requires pos + len <= |data| && DigitRun(data, pos) == len && DecimalAt(data, pos, pos + len) == n
    ensures ScanInt(data, pos) == Scan(true, n, pos + len)
    ensures ReadNumber(data, pos) == Number(n, pos + len)
  {
    assert AfterComments(data, pos) == pos;
    assert SpaceRun(data, pos, -1) == 0;
  }

  /** The decimal text of n at pos, followed by a byte that is not a
      digit (or by nothing), is a run of digits whose value is n. */
  lemma TextAt(data: seq<byte>, pos: nat, n: nat)
    requires pos + |DecimalText(n)| <= |data|
    requires data[pos..pos + |DecimalText(n)|] == DecimalText(n)
    requires !IsDigit(At(data, pos + |DecimalText(n)|))
    ensures pos < |data| && IsDigit(data[pos] as int)
    ensures DigitRun(data, pos) == |DecimalText(n)| && DecimalAt(data, pos, pos + |DecimalText(n)|) == n
  {
    DecimalTextSpec(n);
    DigitsAt(data, pos, DecimalText(n));
  }

  /** The decimal text of n, followed by a byte that is not a digit (or by
      nothing), scans as n. */
  lemma ScanDecimalText(data: seq<byte>, pos: nat, n: nat)
    requires pos + |DecimalText(n)| <= |data|
    requires data[pos..pos + |DecimalText(n)|] == DecimalText(n)
    requires !IsDigit(At(data, pos + |DecimalText(n)|))
    ensures ScanInt(data, pos) == Scan(true, n, pos + |DecimalText(n)|)
    ensures ReadNumber(data, pos) == Number(n, pos + |DecimalText(n)|)
  {
    TextAt(data, pos, n);
    ScanAtDigit(data, pos, |DecimalText(n)|, n);
  }

  /** A known run of whitespace ended by a byte that is not whitespace (or
      by the end of the data) is consumed exactly when unlimited. */
  lemma {:induction false} SpaceRunExact(data: seq<byte>, pos: nat, n: nat)
    requires pos + n <= |data|
    requires forall k :: pos <= k < pos + n ==> IsSpace(data[k] as int)
    requires !IsSpace(At(data, pos + n))
    ensures SpaceRun(data, pos, -1) == n
    decreases n
  {
    if n > 0 {
      SpaceRunExact(data, pos + 1, n - 1);
    }
  }

  /** The tag is accepted exactly when, after leading whitespace, the data
      holds "P6" followed by whitespace, by a 0 byte (where strncmp stops
      comparing) or by the end of the data. */
  lemma TagAccepted(data: seq<byte>, pos: nat)
    requires pos <= |data|
    ensures var start := pos + SpaceRun(data, pos, -1);
      IsP6(ScanTag(data, pos).text) <==>
        start + 2 <= |data| && data[start] == LETTER_P && data[start + 1] == ZERO + 6
        && (start + 2 == |data| || IsSpace(data[start + 2] as int) || data[start + 2] == 0)
  {
    var start := pos + SpaceRun(data, pos, -1);
    var run := NonSpaceRun(data, start);
    var len := if run < 19 then run else 19;
    var text := ScanTag(data, pos).text;
    assert text == data[start..start + len];
    if start + 2 <= |data| && data[start] == LETTER_P && data[start + 1] == ZERO + 6 {
      if start + 2 == |data| || IsSpace(data[start + 2] as int) {
        TagOfTwo(data, start, text);
      } else if data[start + 2] == 0 {
        TagBeforeNul(data, start, text);
      }
    }
    if IsP6(text) {
      TagReadsP6(data, start, text);
    }
  }

  /** "P6" then whitespace or the end: the token is "P6". */
  lemma TagOfTwo(data: seq<byte>, start: nat, text: seq<byte>)
    requires start + 2 <= |data| && data[start] == LETTER_P && data[start + 1] == ZERO + 6
    requires start + 2 == |data| || IsSpace(data[start + 2] as int)
    requires text == data[start..start + (if NonSpaceRun(data, start) < 19 then NonSpaceRun(data, start) else 19)]
    ensures IsP6(text)
  {
    NonSpaceRunExact(data, start, 2);
    assert text == [data[start], data[start + 1]];
    P6IsP6();
  }

  /** "P6" then a 0 byte: the token continues, and strncmp stops at the 0. */
  lemma TagBeforeNul(data: seq<byte>, start: nat, text: seq<byte>)
    requires start + 2 < |data| && data[start] == LETTER_P && data[start + 1] == ZERO + 6 && data[start + 2] == 0
    requires text == data[start..start + (if NonSpaceRun(data, start) < 19 then NonSpaceRun(data, start) else 19)]
    ensures IsP6(text)
  {
    assert NonSpaceRun(data, start) == 1 + NonSpaceRun(data, start + 1);
    assert NonSpaceRun(data, start + 1) == 1 + NonSpaceRun(data, start + 2);
    assert NonSpaceRun(data, start + 2) == 1 + NonSpaceRun(data, start + 3);
    assert 3 <= |text|;
    assert text[0] == LETTER_P && text[1] == ZERO + 6 && text[2] == 0;
    CStringStops(text, 2);
    assert text[..2] == P6;
  }

  /** A token that reads "P6" starts with "P6", followed by whitespace, a
      0 byte or the end of the data. */
  lemma TagReadsP6(data: seq<byte>, start: nat, text: seq<byte>)
    requires start <= |data|
    requires text == data[start..start + (if NonSpaceRun(data, start) < 19 then NonSpaceRun(data, start) else 19)]
    requires IsP6(text)
    ensures start + 2 <= |data| && data[start] == LETTER_P && data[start + 1] == ZERO + 6
    ensures start + 2 == |data| || IsSpace(data[start + 2] as int) || data[start + 2] == 0
  {
    var r := CString(text);
    assert r == P6 && r <= text;
    assert text[0] == LETTER_P && text[1] == ZERO + 6;
    assert data[start] == text[0] && data[start + 1] == text[1];
    if |text| == 2 {
      assert NonSpaceRun(data, start) == 2;
    } else {
      assert text[2] == 0;
      assert data[start + 2] == text[2];
    }
  }

  /** A first token "P6" followed by a 0 byte passes the tag test, as in
      the data "P6\0 1". */
  lemma NulEndsTag()
    ensures IsP6(ScanTag([LETTER_P, ZERO + 6, 0, SPACE, ZERO + 1], 0).text)
  {
    var data: seq<byte> := [LETTER_P, ZERO + 6, 0, SPACE, ZERO + 1];
    assert SpaceRun(data, 0, -1) == 0;
    TagAccepted(data, 0);
  }

  /** "P6" reads as itself. */
  lemma P6IsP6()
    ensures IsP6(P6)
  {
    assert CString(P6) == [P6[0]] + CString(P6[1..]);
    assert CString(P6[1..]) == [P6[1]] + CString(P6[2..]);
  }

  /** A token whose first n bytes are not 0 and whose next byte is 0
      reads as its first n bytes. */
  lemma CStringStops(text: seq<byte>, n: nat)
    requires n < |text| && text[n] == 0
    requires forall i :: 0 <= i < n ==> text[i] != 0
    ensures CString(text) == text[..n]
  {
  }

  /** A known run of non-whitespace ended by whitespace (or by the end of
      the data) is measured exactly by NonSpaceRun. */
  lemma {:induction false} NonSpaceRunExact(data: seq<byte>, pos: nat, n: nat)
    requires pos + n <= |data|
    requires forall k :: pos <= k < pos + n ==> !IsSpace(data[k] as int)
    requires pos + n == |data| || IsSpace(data[pos + n] as int)
    ensures NonSpaceRun(data, pos) == n
    decreases n
  {
    if n > 0 {
      NonSpaceRunExact(data, pos + 1, n - 1);
    }
  }

  // ---------------------------------------------------------------------
  // The round trip

  /** The data from pos on is A followed by R: A sits at pos and R after it. */
  lemma Split(data: seq<byte>, pos: nat, A: seq<byte>, R: seq<byte>)
    requires pos <= |data| && data[pos..] == A + R
    ensures pos + |A| <= |data| && data[pos..pos + |A|] == A && data[pos + |A|..] == R
    ensures |R| > 0 ==> data[pos + |A|] == R[0]
    ensures |A| > 0 ==> data[pos] == A[0]
  {
    assert data[pos..][..|A|] == A;
    assert data[pos..][|A|..] == R;
  }

  /** The decimal text of 255 is three bytes long. */
  lemma MaxvalText()
    ensures |DecimalText(255)| == 3
  {
    assert DecimalText(255) == DecimalText(25) + [ZERO + 5];
    assert DecimalText(25) == DecimalText(2) + [ZERO + 5];
  }

  /** Where the pieces of a file WritePPM writes sit: "P6\n " at 0, the
      width's digits from 4, a space, the height's digits, "\n 255\n", then
      the body. */
  predicate Layout(data: seq<byte>, width: nat, height: nat, body: seq<byte>)
  {
    var a, b := |DecimalText(width)|, |DecimalText(height)|;
    |data| == 11 + a + b + |body|
    && data[0] == LETTER_P && data[1] == ZERO + 6 && data[2] == NEWLINE && data[3] == SPACE
    && data[4..4 + a] == DecimalText(width) && data[4 + a] == SPACE
    && data[5 + a..5 + a + b] == DecimalText(height)
    && data[5 + a + b] == NEWLINE && data[6 + a + b] == SPACE
    && data[7 + a + b..10 + a + b] == DecimalText(255)
    && data[10 + a + b] == NEWLINE
    && data[11 + a + b..] == body
  }

  /** "P6\n " at 0, then the width text W, a space and the height text H. */
  predicate FrontAt(data: seq<byte>, W: seq<byte>, H: seq<byte>)
  {
    5 + |W| + |H| <= |data|
    && data[0] == LETTER_P && data[1] == ZERO + 6 && data[2] == NEWLINE && data[3] == SPACE
    && data[4..4 + |W|] == W && data[4 + |W|] == SPACE
    && data[5 + |W|..5 + |W| + |H|] == H
  }

  /** "\n ", the maximal colour text T and a newline at p, then the body to the end. */
  predicate BackAt(data: seq<byte>, p: nat, T: seq<byte>, body: seq<byte>)
  {
    |T| == 3 && |data| == p + 6 + |body|
    && data[p] == NEWLINE && data[p + 1] == SPACE
    && data[p + 2..p + 5] == T && data[p + 5] == NEWLINE
    && data[p + 6..] == body
  }

  /** The layout is its front and its back. */
  lemma LayoutIntro(data: seq<byte>, width: nat, height: nat, body: seq<byte>, W: seq<byte>, H: seq<byte>)
    requires W == DecimalText(width) && H == DecimalText(height)
    requires FrontAt(data, W, H) && BackAt(data, 5 + |W| + |H|, DecimalText(255), body)
    ensures Layout(data, width, height, body)
  {
  }

  /** The front of a header whose width and height texts are W and H,
      up to the height's digits. */
  lemma FrontLayout(data: seq<byte>, W: seq<byte>, H: seq<byte>, rest: seq<byte>)
    requires data == [LETTER_P, ZERO + 6, NEWLINE, SPACE] + (W + ([SPACE] + (H + rest)))
    ensures FrontAt(data, W, H) && data[5 + |W| + |H|..] == rest
  {
    var R1 := W + ([SPACE] + (H + rest));
    Split(data, 0, [LETTER_P, ZERO + 6, NEWLINE, SPACE], R1);
    MiddleLayout(data, 4, W, H, rest);
  }

  /** The width text, a space, the height text and the rest, from p. */
  lemma MiddleLayout(data: seq<byte>, p: nat, W: seq<byte>, H: seq<byte>, rest: seq<byte>)
    requires p <= |data| && data[p..] == W + ([SPACE] + (H + rest))
    ensures p + 1 + |W| + |H| <= |data|
    ensures data[p..p + |W|] == W && data[p + |W|] == SPACE
    ensures data[p + 1 + |W|..p + 1 + |W| + |H|] == H && data[p + 1 + |W| + |H|..] == rest
  {
    var R3 := H + rest;
    Split(data, p, W, [SPACE] + R3);
    Split(data, p + |W|, [SPACE], R3);
    Split(data, p + |W| + 1, H, rest);
  }

  /** The rest of the header, with maximal colour text T, and the body. */
  lemma BackLayout(data: seq<byte>, p: nat, T: seq<byte>, body: seq<byte>)
    requires p <= |data| && data[p..] == [NEWLINE, SPACE] + (T + ([NEWLINE] + body)) && |T| == 3
    ensures BackAt(data, p, T, body)
  {
    var R6 := [NEWLINE] + body;
    var R5 := T + R6;
    Split(data, p, [NEWLINE, SPACE], R5);
    Split(data, p + 2, T, R6);
    Split(data, p + 5, [NEWLINE], body);
  }

  /** An encoded file has the layout of a P6 file. */
  lemma EncodeLayout(width: nat, height: nat, px: seq<Pixel>)
    ensures Layout(Encode(width, height, px), width, height, Body(px))
  {
    var W, H, T := DecimalText(width), DecimalText(height), DecimalText(255);
    var data := Encode(width, height, px);
    var rest := [NEWLINE, SPACE] + (T + ([NEWLINE] + Body(px)));
    MaxvalText();
    FrontLayout(data, W, H, rest);
    BackLayout(data, 5 + |W| + |H|, T, Body(px));
    LayoutIntro(data, width, height, Body(px), W, H);
  }

  /** A number written in decimal and followed by one or two whitespace
      bytes is read back, and the whitespace after it is skipped. */
  lemma NumberThenSpace(data: seq<byte>, pos: nat, n: nat, sp: nat, end: nat)
    requires sp == pos + |DecimalText(n)| && sp < end <= sp + 2 && end <= |data|
    requires data[pos..sp] == DecimalText(n)
    requires IsSpace(data[sp] as int) && IsSpace(data[end - 1] as int) && !IsSpace(At(data, end))
    ensures NumberAndSpace(data, pos) == Number(n, end)
  {
    TextAt(data, pos, n);
    ShortSpaceRun(data, sp, end - sp);
    DigitsThenSpace(data, pos, n, sp - pos, end - sp);
  }

  /** One or two whitespace bytes, then a byte that is not whitespace (or
      nothing): the unlimited run is exactly those bytes. */
  lemma ShortSpaceRun(data: seq<byte>, pos: nat, spaces: nat)
    requires pos + spaces <= |data| && (spaces == 1 || spaces == 2)
    requires IsSpace(data[pos] as int) && (spaces == 2 ==> IsSpace(data[pos + 1] as int))
    requires !IsSpace(At(data, pos + spaces))
    ensures SpaceRun(data, pos, -1) == spaces
  {
    if spaces == 2 {
      SpaceRunExact(data, pos + 1, 1);
    }
    SpaceRunExact(data, pos, spaces);
  }

  /** A run of len digits worth n, then spaces whitespace bytes: NumberAndSpace reads n. */
  lemma DigitsThenSpace(data: seq<byte>, pos: nat, n: nat, len: nat, spaces: nat)
    requires pos < |data| && IsDigit(data[pos] as int) && pos + len <= |data|
    requires DigitRun(data, pos) == len && DecimalAt(data, pos, pos + len) == n
    requires SpaceRun(data, pos + len, -1) == spaces
    ensures NumberAndSpace(data, pos) == Number(n, pos + len + spaces)
  {
    ScanAtDigit(data, pos, len, n);
  }

  /** The tag of a laid-out file is "P6", and the scan stops at the width. */
  lemma LayoutTag(data: seq<byte>, width: nat, height: nat, body: seq<byte>)
    requires Layout(data, width, height, body)
    ensures ScanTag(data, 0) == Token(P6, 4)
  {
    DecimalTextSpec(width);
    assert data[4] == DecimalText(width)[0];
    assert SpaceRun(data, 0, -1) == 0;
    NonSpaceRunExact(data, 0, 2);
    assert data[0..2] == P6;
    SpaceRunExact(data, 2, 2);
  }

  /** The bytes around the width and the height of a laid-out file; a and
      b are the lengths of their decimal texts. */
  lemma LayoutFields(data: seq<byte>, width: nat, height: nat, body: seq<byte>)
      returns (sp1: nat, e1: nat, sp2: nat, e2: nat)
    requires Layout(data, width, height, body)
    ensures sp1 == 4 + |DecimalText(width)| && e1 == sp1 + 1
    ensures sp2 == e1 + |DecimalText(height)| && e2 == sp2 + 2 && e2 <= |data|
    ensures data[4..sp1] == DecimalText(width)
    ensures IsSpace(data[sp1] as int) && IsSpace(data[e1 - 1] as int) && !IsSpace(At(data, e1))
    ensures data[e1..sp2] == DecimalText(height)
    ensures IsSpace(data[sp2] as int) && IsSpace(data[e2 - 1] as int) && !IsSpace(At(data, e2))
  {
    var a, b := |DecimalText(width)|, |DecimalText(height)|;
    DecimalTextSpec(height);
    DecimalTextSpec(255);
    assert data[5 + a] == DecimalText(height)[0];
    assert data[7 + a + b] == DecimalText(255)[0];
    sp1, e1, sp2, e2 := 4 + a, 5 + a, 5 + a + b, 7 + a + b;
  }

  /** Size is two numbers, each followed by whitespace. */
  lemma SizeOf(data: seq<byte>, pos: nat, width: int, p1: nat, height: int, p2: nat)
    requires pos <= |data| && NumberAndSpace(data, pos) == Number(width, p1)
    requires p1 <= |data| && NumberAndSpace(data, p1) == Number(height, p2)
    ensures Size(data, pos) == SizeRead(width, height, p2)
  {
  }

  /** The width and height of a laid-out file are read back, and the scan
      stops at p, where the maximal colour value begins. */
  lemma LayoutSize(data: seq<byte>, width: nat, height: nat, body: seq<byte>) returns (p: nat)
    requires Layout(data, width, height, body)
    ensures p == 7 + |DecimalText(width)| + |DecimalText(height)| && p <= |data|
    ensures Size(data, 4) == SizeRead(width, height, p)
  {
    var sp1, e1, sp2, e2 := LayoutFields(data, width, height, body);
    FieldsRead(data, width, height, sp1, e1, sp2, e2);
    p := e2;
  }

  /** The width text at 4 and the height text after it, each followed by
      whitespace, are read back as the size. */
  lemma FieldsRead(data: seq<byte>, width: nat, height: nat, sp1: nat, e1: nat, sp2: nat, e2: nat)
    requires sp1 == 4 + |DecimalText(width)| && e1 == sp1 + 1
    requires sp2 == e1 + |DecimalText(height)| && e2 == sp2 + 2 && e2 <= |data|
    requires data[4..sp1] == DecimalText(width)
    requires IsSpace(data[sp1] as int) && IsSpace(data[e1 - 1] as int) && !IsSpace(At(data, e1))
    requires data[e1..sp2] == DecimalText(height)
    requires IsSpace(data[sp2] as int) && IsSpace(data[e2 - 1] as int) && !IsSpace(At(data, e2))
    ensures Size(data, 4) == SizeRead(width, height, e2)
  {
    NumberThenSpace(data, 4, width, sp1, e1);
    NumberThenSpace(data, e1, height, sp2, e2);
    SizeOf(data, 4, width, e1, height, e2);
  }

  /** The maximal colour value of a laid-out file, at p, is accepted, and
      the body begins after the newline that follows it. */
  lemma LayoutMaxval(data: seq<byte>, width: nat, height: nat, body: seq<byte>, p: nat)
    requires Layout(data, width, height, body) && p == 7 + |DecimalText(width)| + |DecimalText(height)|
    ensures Maxval(data, p) == Some(BodyStart(width, height))
  {
    MaxvalText();
    ScanDecimalText(data, p, 255);
    assert SpaceRun(data, p + 4, 0) == 0;
    assert SpaceRun(data, p + 3, 1) == 1;
  }

  /** The pixels as ReadPPM returns them: the colours kept, each marked set. */
  function Marked(px: seq<Pixel>): (m: seq<Pixel>)
    ensures |m| == |px|
  {
    seq(|px|, i requires 0 <= i < |px| => px[i].(a := SET))
  }

  /** ParsePPM is the header followed by the body. */
  lemma ParseSteps(data: seq<byte>, d: Dimensions, r: Decoded)
    requires ParseHeader(data, 0) == Some(d) && ParseBody(data, d) == Some(r)
    ensures ParsePPM(data, 0) == Some(r)
  {
  }

  /** A body written by WritePPM decodes to the pixels, each marked set. */
  lemma BodyDecodes(data: seq<byte>, body: nat, px: seq<Pixel>)
    requires body <= |data| && data[body..] == Body(px)
    ensures body + 3 * |px| == |data|
    ensures BodyPixels(data, body, |px|) == Marked(px)
  {
    var B := Body(px);
    var got := BodyPixels(data, body, |px|);
    var want := Marked(px);
    forall i | 0 <= i < |px|
      ensures got[i] == want[i]
    {
      BodyAt(px, i);
      assert data[body + 3 * i] == B[3 * i];
      assert data[body + 3 * i + 1] == B[3 * i + 1];
      assert data[body + 3 * i + 2] == B[3 * i + 2];
    }
    assert got == want;
  }

  /** The tag, the size and the maximal colour value of a laid-out file
      are read back, and the body follows them. */
  lemma LayoutParts(data: seq<byte>, width: nat, height: nat, body: seq<byte>) returns (p: nat)
    requires Layout(data, width, height, body)
    ensures 4 <= |data| && ScanTag(data, 0) == Token(P6, 4)
    ensures p <= |data| && Size(data, 4) == SizeRead(width, height, p)
    ensures Maxval(data, p) == Some(BodyStart(width, height))
  {
    LayoutTag(data, width, height, body);
    p := LayoutSize(data, width, height, body);
    LayoutMaxval(data, width, height, body, p);
  }

  /** The header of a laid-out file with positive dimensions is accepted,
      and the body follows it. */
  lemma LayoutHeader(data: seq<byte>, width: nat, height: nat, body: seq<byte>)
    requires Layout(data, width, height, body) && width > 0 && height > 0
    ensures ParseHeader(data, 0) == Some(Dimensions(width, height, BodyStart(width, height)))
  {
    var p := LayoutParts(data, width, height, body);
    HeaderOf(data, width, height, p, BodyStart(width, height));
  }

  /** The header of a laid-out file with a zero dimension is refused. */
  lemma LayoutHeaderZero(data: seq<byte>, width: nat, height: nat, body: seq<byte>)
    requires Layout(data, width, height, body) && (width == 0 || height == 0)
    ensures ParseHeader(data, 0).None?
  {
    var p := LayoutParts(data, width, height, body);
    HeaderRefused(data, width, height, p);
  }

  /** ParseHeader is the tag, the size and the maximal colour value. */
  lemma HeaderOf(data: seq<byte>, width: int, height: int, p: nat, body: nat)
    requires 4 <= |data| && ScanTag(data, 0) == Token(P6, 4)
    requires Size(data, 4) == SizeRead(width, height, p) && p <= |data|
    requires width > 0 && height > 0 && Maxval(data, p) == Some(body)
    ensures ParseHeader(data, 0) == Some(Dimensions(width, height, body))
  {
    P6IsP6();
  }

  /** ParseHeader refuses a zero dimension. */
  lemma HeaderRefused(data: seq<byte>, width: int, height: int, p: nat)
    requires 4 <= |data| && ScanTag(data, 0) == Token(P6, 4)
    requires Size(data, 4) == SizeRead(width, height, p) && (width <= 0 || height <= 0)
    ensures ParseHeader(data, 0).None?
  {
  }


  /** The body of the pixels, written after an accepted header, is read
      back with every pixel marked set. */
  lemma BodyParse(data: seq<byte>, d: Dimensions, px: seq<Pixel>)
    requires d.body <= |data| && data[d.body..] == Body(px) && |px| == d.width * d.height
    ensures ParseBody(data, d) == Some(Decoded(d.width, d.height, Marked(px)))
  {
    BodyDecodes(data, d.body, px);
  }

  /** The body of the file WritePPM writes follows the header. */
  lemma EncodeBody(width: nat, height: nat, px: seq<Pixel>)
    ensures BodyStart(width, height) <= |Encode(width, height, px)|
    ensures Encode(width, height, px)[BodyStart(width, height)..] == Body(px)
  {
    EncodeLayout(width, height, px);
  }

  /** WritePPM's header is accepted when both dimensions are positive. */
  lemma EncodeHeader(width: nat, height: nat, px: seq<Pixel>)
    requires width > 0 && height > 0
    ensures ParseHeader(Encode(width, height, px), 0) == Some(Dimensions(width, height, BodyStart(width, height)))
  {
    EncodeLayout(width, height, px);
    LayoutHeader(Encode(width, height, px), width, height, Body(px));
  }

  /** WritePPM's header is refused when a dimension is zero. */
  lemma EncodeHeaderZero(width: nat, height: nat, px: seq<Pixel>)
    requires width == 0 || height == 0
    ensures ParseHeader(Encode(width, height, px), 0).None?
  {
    EncodeLayout(width, height, px);
    LayoutHeaderZero(Encode(width, height, px), width, height, Body(px));
  }

  /** A file whose header is accepted (exactly when both dimensions are
      positive) and whose body is written by WritePPM is read back to the
      pixels, each marked set. */
  lemma HeaderThenBody(data: seq<byte>, width: nat, height: nat, body: nat, px: seq<Pixel>)
    requires body <= |data| && data[body..] == Body(px) && |px| == width * height
    requires width > 0 && height > 0 ==> ParseHeader(data, 0) == Some(Dimensions(width, height, body))
    requires width == 0 || height == 0 ==> ParseHeader(data, 0).None?
    ensures width > 0 && height > 0 ==> ParsePPM(data, 0) == Some(Decoded(width, height, Marked(px)))
    ensures width == 0 || height == 0 ==> ParsePPM(data, 0).None?
  {
    if width > 0 && height > 0 {
      var d := Dimensions(width, height, body);
      BodyParse(data, d, px);
      ParseSteps(data, d, Decoded(width, height, Marked(px)));
    }
  }

  /** Reading what WritePPM writes gives back the width, the height and
      the colours of every pixel, each marked set; an image with a zero
      dimension is written but not read back. */
  lemma RoundTrip(width: nat, height: nat, px: seq<Pixel>)
    requires |px| == width * height
    ensures width > 0 && height > 0 ==>
      ParsePPM(Encode(width, height, px), 0) == Some(Decoded(width, height, Marked(px)))
    ensures width == 0 || height == 0 ==> ParsePPM(Encode(width, height, px), 0).None?
  {
    EncodeBody(width, height, px);
    if width > 0 && height > 0 {
      EncodeHeader(width, height, px);
    } else {
      EncodeHeaderZero(width, height, px);
    }
    HeaderThenBody(Encode(width, height, px), width, height, BodyStart(width, height), px);
  }

  // ---------------------------------------------------------------------
  // ReadPPM as written: the pointer returned after FreeImage

  /** What the pointer ReadPPM returns refers to: nothing, a loaded image,
      or an image that has already been released. */
  datatype Returned = NullPointer | Loaded(image: Decoded) | Released

  /** ReadPPM exactly as written. A bad tag or a non-positive dimension
      returns the null pointer; a failure after the image is allocated (a
      maximal colour value other than 255, no whitespace after it, a short
      body) calls FreeImage(&img) and returns img, which FreeImage releases
      but does not set to null. */
  function ReadPPMAsWritten(data: seq<byte>, pos: nat): (r: Returned)
    requires pos <= |data|
    ensures r.Loaded? <==> ParsePPM(data, pos).Some?
    ensures r.Loaded? ==> r.image == ParsePPM(data, pos).value
    ensures r.Released? <==>
      ParsePPM(data, pos).None? && IsP6(ScanTag(data, pos).text)
      && Size(data, ScanTag(data, pos).next).width > 0 && Size(data, ScanTag(data, pos).next).height > 0
  {
    match ParseHeader(data, pos)
    case Some(d) =>
      (match ParseBody(data, d) case None => Released case Some(image) => Loaded(image))
    case None =>
      var tag := ScanTag(data, pos);
      var size := Size(data, tag.next);
      if IsP6(tag.text) && size.width > 0 && size.height > 0 then Released else NullPointer
  }

  /** A well-formed header followed by too few pixel bytes makes ReadPPM
      as written return a released, non-null image, where the null pointer
      that reports every other failure is meant: "P6\n 1 1\n 255\n" with no
      pixel bytes is such a file. */
  lemma ShortBodyReleased(width: nat, height: nat, px: seq<Pixel>)
    requires width > 0 && height > 0 && |px| < width * height
    ensures ReadPPMAsWritten(Encode(width, height, px), 0) == Released
    ensures ParsePPM(Encode(width, height, px), 0).None?
  {
    EncodeHeader(width, height, px);
    EncodeBody(width, height, px);
  }

  /** The smallest such file: the header of a 1 x 1 image and no pixel. */
  lemma EmptyBodyReleased()
    ensures ReadPPMAsWritten(Encode(1, 1, []), 0) == Released
  {
    ShortBodyReleased(1, 1, []);
  }

  // ---------------------------------------------------------------------
  // The file handles and the code of ppm.c

  /** A FILE* opened for reading: its bytes and the read position. */
  class InFile {
    const data: seq<byte>
    var pos: nat

    predicate Valid()
      reads this
    {
      pos <= |data|
    }

    constructor (data: seq<byte>)
      ensures this.data == data && pos == 0 && Valid()
    {
      this.data := data;
      pos := 0;
    }

    /** fgetc: the next byte, or EOF at the end. */
    method Getc() returns (ch: int)
      requires Valid()
      modifies this
      ensures Valid()
      ensures ch == At(data, old(pos))
      ensures pos == if ch == EOF then old(pos) else old(pos) + 1
    {
      ch := At(data, pos);
      if ch != EOF {
        pos := pos + 1;
      }
    }

    /** ungetc of the byte just read; EOF is not pushed back. */
    method Ungetc(ch: int)
      requires Valid() && (ch != EOF ==> 0 < pos)
      modifies this
      ensures Valid()
      ensures pos == if ch == EOF then old(pos) else old(pos) - 1
    {
      if ch != EOF {
        pos := pos - 1;
      }
    }
  }

  /** A FILE* opened for writing: the bytes written so far. */
  class OutFile {
    var bytes: seq<byte>

    constructor ()
      ensures bytes == []
    {
      bytes := [];
    }
  }

  /** ppm_read_whitespace: consumes whitespace, at most maxWhiteSpace bytes
      unless that is -1, and returns how many it consumed. */
  method ReadWhitespace(fp: InFile, maxWhiteSpace: int) returns (wsCount: int)
    requires fp.Valid()
    modifies fp
    ensures fp.Valid()
    ensures wsCount == SpaceRun(fp.data, old(fp.pos), maxWhiteSpace)
    ensures fp.pos == old(fp.pos) + wsCount
  {
    ghost var p0 := fp.pos;
    wsCount := 0;
    while maxWhiteSpace == -1 || wsCount < maxWhiteSpace
      invariant fp.Valid() && 0 <= wsCount && fp.pos == p0 + wsCount
      invariant maxWhiteSpace != -1 ==> wsCount == 0 || wsCount <= maxWhiteSpace
      invariant SpaceRun(fp.data, p0, maxWhiteSpace)
        == wsCount + SpaceRun(fp.data, fp.pos, Remaining(maxWhiteSpace, wsCount))
      decreases |fp.data| - fp.pos
    {
      var ch := fp.Getc();
      if !IsSpace(ch) {
        fp.Ungetc(ch);
        return;
      }
      wsCount := wsCount + 1;
    }
  }

  /** The inner loop of ppm_read_num: discards bytes up to and including
      the next '\n', or to the end of the data. */
  method DiscardLine(fp: InFile)
    requires fp.Valid()
    modifies fp
    ensures fp.Valid() && fp.pos == LineEnd(fp.data, old(fp.pos))
  {
    ghost var start := fp.pos;
    var ch := fp.Getc();
    while ch != NEWLINE as int && ch != EOF
      invariant fp.Valid()
      invariant ch == EOF ==> fp.pos == |fp.data|
      invariant LineEnd(fp.data, start) == if ch == NEWLINE as int then fp.pos else LineEnd(fp.data, fp.pos)
      decreases |fp.data| - fp.pos, if ch == EOF then 0 else 1
    {
      ch := fp.Getc();
    }
  }

  /** fscanf(fp, "%d", &val): returns 1 and the value when an integer is
      matched, 0 otherwise. */
  method FscanfInt(fp: InFile) returns (matched: int, val: int)
    requires fp.Valid()
    modifies fp
    ensures fp.Valid()
    ensures matched == 1 <==> ScanInt(fp.data, old(fp.pos)).matched
    ensures matched == 1 ==> val == ScanInt(fp.data, old(fp.pos)).value
    ensures fp.pos == ScanInt(fp.data, old(fp.pos)).next
  {
    var s := ScanInt(fp.data, fp.pos);
    fp.pos := s.next;
    matched := if s.matched then 1 else 0;
    val := s.value;
  }

  /** ppm_read_num: skips the comment lines, then reads an integer, or
      returns -1 when there is none. */
  method ReadNum(fp: InFile) returns (val: int)
    requires fp.Valid()
    modifies fp
    ensures fp.Valid()
    ensures Number(val, fp.pos) == ReadNumber(fp.data, old(fp.pos))
  {
    ghost var p0 := fp.pos;
    ghost var q: nat := fp.pos;
    var ch := fp.Getc();
    while ch == HASH as int
      invariant fp.Valid() && q <= |fp.data|
      invariant ch == At(fp.data, q) && fp.pos == (if ch == EOF then q else q + 1)
      invariant AfterComments(fp.data, q) == AfterComments(fp.data, p0)
      decreases |fp.data| - fp.pos, if ch == EOF then 0 else 1
    {
      DiscardLine(fp);
      q := fp.pos;
      ch := fp.Getc();
    }
    fp.Ungetc(ch);
    assert fp.pos == AfterComments(fp.data, p0);
    var matched;
    matched, val := FscanfInt(fp);
    if matched != 1 {
      val := -1;
    }
  }

  /** fscanf(fp, "%19s\n", tag). */
  method FscanfTag(fp: InFile) returns (tag: seq<byte>)
    requires fp.Valid()
    modifies fp
    ensures fp.Valid()
    ensures Token(tag, fp.pos) == ScanTag(fp.data, old(fp.pos))
  {
    var r := ScanTag(fp.data, fp.pos);
    tag := r.text;
    fp.pos := r.next;
  }

  /** fread(p, 1, 3, fp): reads up to three bytes; the count says how many. */
  method Fread3(fp: InFile) returns (count: nat, r: byte, g: byte, b: byte)
    requires fp.Valid()
    modifies fp
    ensures fp.Valid()
    ensures count == 3 <==> old(fp.pos) + 3 <= |fp.data|
    ensures count == 3 ==>
      fp.pos == old(fp.pos) + 3
      && r == fp.data[old(fp.pos)] && g == fp.data[old(fp.pos) + 1] && b == fp.data[old(fp.pos) + 2]
  {
    if fp.pos + 3 <= |fp.data| {
      count, r, g, b := 3, fp.data[fp.pos], fp.data[fp.pos + 1], fp.data[fp.pos + 2];
      fp.pos := fp.pos + 3;
    } else {
      count, r, g, b := |fp.data| - fp.pos, 0, 0, 0;
      fp.pos := |fp.data|;
    }
  }

  /** Lines 83-86 of ReadPPM: the width and the height, each followed by
      whatever whitespace there is. */
  method ReadDimensions(fp: InFile) returns (width: int, height: int)
    requires fp.Valid()
    modifies fp
    ensures fp.Valid()
    ensures SizeRead(width, height, fp.pos) == Size(fp.data, old(fp.pos))
  {
    ghost var p0 := fp.pos;
    width := ReadNum(fp);
    var skipped := ReadWhitespace(fp, -1);
    ghost var p1 := fp.pos;
    assert NumberAndSpace(fp.data, p0) == Number(width, p1);
    height := ReadNum(fp);
    skipped := ReadWhitespace(fp, -1);
    assert NumberAndSpace(fp.data, p1) == Number(height, fp.pos);
    SizeOf(fp.data, p0, width, p1, height, fp.pos);
  }

  /** Lines 104-116 of ReadPPM: the maximal colour value must be 255 and be
      followed by one whitespace byte. */
  method ReadMaxval(fp: InFile) returns (ok: bool)
    requires fp.Valid()
    modifies fp
    ensures fp.Valid()
    ensures ok <==> Maxval(fp.data, old(fp.pos)).Some?
    ensures ok ==> fp.pos == Maxval(fp.data, old(fp.pos)).value
  {
    var colors := ReadNum(fp);
    if colors != 255 {
      return false;
    }
    var ws := ReadWhitespace(fp, 1);
    ok := ws == 1;
  }

  /** The pixel loop of ReadPPM: three bytes per pixel, alpha set to 255;
      false at the first short read. */
  method ReadPixels(fp: InFile, img: Image) returns (ok: bool)
    requires fp.Valid() && img.Valid()
    modifies fp, img.pixels
    ensures ok <==> ParseBody(fp.data, Dimensions(img.width, img.height, old(fp.pos))).Some?
    ensures ok ==> img.pixels[..] == ParseBody(fp.data, Dimensions(img.width, img.height, old(fp.pos))).value.pixels
  {
    ghost var data, body := fp.data, fp.pos;
    var n := img.width * img.height;
    for i := 0 to n
      invariant fp.Valid() && fp.data == data && fp.pos == body + 3 * i
      invariant forall k :: 0 <= k < i ==>
        img.pixels[k] == Pixel(data[body + 3 * k], data[body + 3 * k + 1], data[body + 3 * k + 2], SET)
    {
      var count, r, g, b := Fread3(fp);
      if count != 3 {
        assert body + 3 * n > |data|;
        return false;
      }
      img.pixels[i] := Pixel(r, g, b, SET);
    }
    assert img.pixels[..] == BodyPixels(data, body, n);
    ok := true;
  }

  /** ReadPPM: parses the header, allocates the image and reads its
      pixels, marking each one set; null on any failure. */
  method ReadPPM(fp: InFile) returns (img: Image?)
    requires fp.Valid()
    modifies fp
    ensures img == null <==> ParsePPM(fp.data, old(fp.pos)).None?
    ensures img != null ==>
      fresh(img) && fresh(img.pixels) && img.Valid()
      && ParsePPM(fp.data, old(fp.pos)).value == Decoded(img.width, img.height, img.pixels[..])
  {
    ghost var data, pos := fp.data, fp.pos;
    var tag := FscanfTag(fp);
    if !IsP6(tag) {
      return null;
    }
    var width, height := ReadDimensions(fp);
    if width <= 0 || height <= 0 {
      return null;
    }
    img := new Image(width, height);
    var ok := ReadMaxval(fp);
    if !ok {
      return null;
    }
    assert ParseHeader(data, pos) == Some(Dimensions(width, height, fp.pos));
    ok := ReadPixels(fp, img);
    if !ok {
      return null;
    }
  }

  /** WritePPM: -1 without a file; otherwise prints the header and three
      bytes per pixel and returns the number of pixels written. */
  method WritePPM(fp: OutFile?, img: Image) returns (written: int)
    requires img.Valid()
    modifies fp
    ensures fp == null <==> written == -1
    ensures fp != null ==>
      written == img.width * img.height
      && fp.bytes == old(fp.bytes) + Encode(img.width, img.height, img.pixels[..])
  {
    if fp == null {
      return -1;
    }
    fp.bytes := fp.bytes + Header(img.width, img.height);
    var pixelsWritten := 0;
    for i := 0 to img.width * img.height
      invariant pixelsWritten == i
      invariant fp.bytes == old(fp.bytes) + Header(img.width, img.height) + Body(img.pixels[..i])
    {
      fp.bytes := fp.bytes + [img.pixels[i].r, img.pixels[i].g, img.pixels[i].b];
      assert img.pixels[..i + 1][..i] == img.pixels[..i];
      pixelsWritten := pixelsWritten + 1;
    }
    assert img.pixels[..img.width * img.height] == img.pixels[..];
    HeaderAppend(img.width, img.height, Body(img.pixels[..]));
    written := pixelsWritten;
  }
}
