/**
 * `fmt_xxd_hexdump`: the byte-exact rendering of binary blobs. Each chunk of 16 bytes
 * becomes one line: the chunk's index as at least 8 lower-case hex digits, `": "`, the
 * hex words left-aligned in a field of at least 39 characters, a space, and the ASCII
 * gutter. Every line, the last one included, is followed by a newline.
 */
module Hexdump {
  import opened Bytes

  /** `slice::chunks(n)`: consecutive pieces of `n` elements, the last one possibly shorter. */
  function Chunks<T>(s: seq<T>, n: nat): (r: seq<seq<T>>)
    requires n > 0
    ensures forall i :: 0 <= i < |r| ==> 0 < |r[i]| <= n
    ensures forall i :: 0 <= i < |r| - 1 ==> |r[i]| == n
    decreases |s|
  {
    if s == [] then []
    else if |s| <= n then [s]
    else [s[..n]] + Chunks(s[n..], n)
  }

  function Flatten<T>(parts: seq<seq<T>>): seq<T> {
    if parts == [] then [] else parts[0] + Flatten(parts[1..])
  }

  /** The left fold with the source's `concat(sep)`: every part is followed by `sep`. */
  function JoinTerminated(parts: seq<Str>, sep: Str): Str {
    if parts == [] then [] else JoinTerminated(parts[..|parts| - 1], sep) + parts[|parts| - 1] + sep
  }

  /** A lower-case hex digit. */
  function HexDigit(d: nat): byte
    requires d < 16
  {
    if d < 10 then (0x30 + d) as byte else (0x57 + d) as byte
  }

  /** `{:02x}` of a byte. */
  function Hex2(b: byte): Str {
    [HexDigit(b as nat / 16), HexDigit(b as nat % 16)]
  }

  /** `{:0wx}`: the lower-case hex digits of `n`, zero-padded on the left to at least `w` digits. */
  function HexPadded(n: nat, w: nat): Str
    decreases n + w
  {
    if n < 16 && w <= 1 then [HexDigit(n)]
    else HexPadded(n / 16, if w > 0 then w - 1 else 0) + [HexDigit(n % 16)]
  }

  /** One 2-byte word: both bytes, or an odd trailing byte followed by two spaces. */
  function Word(w: Str): Str
    requires 1 <= |w| <= 2
  {
    if |w| == 2 then Hex2(w[0]) + Hex2(w[1]) else Hex2(w[0]) + [SPACE, SPACE]
  }

  function Words(ws: seq<Str>): seq<Str>
    requires forall i :: 0 <= i < |ws| ==> 1 <= |ws[i]| <= 2
  {
    seq(|ws|, i requires 0 <= i < |ws| => Word(ws[i]))
  }

  /** The hex column of a line: every word followed by a space. */
  function HexField(chunk: Str): Str {
    JoinTerminated(Words(Chunks(chunk, 2)), [SPACE])
  }

  /** `{: <w}`: left-aligned, padded with spaces to at least `w`. */
  function PadRight(s: Str, w: nat): Str {
    if |s| >= w then s else s + seq(w - |s|, _ => SPACE)
  }

  /** The ASCII column: graphic bytes as themselves, everything else (space included) as `.`. */
  function Gutter(chunk: Str): Str {
    seq(|chunk|, i requires 0 <= i < |chunk| => if IsGraphic(chunk[i]) then chunk[i] else DOT)
  }

  /** `format!("{:08x}: {: <39} {}", offset, hex, ascii)`, where `offset` is the chunk's index. */
  function Line(index: nat, chunk: Str): (r: Str)
    ensures |r| > |chunk| && r[|r| - |chunk| - 1..] == [SPACE] + Gutter(chunk)
  {
    HexPadded(index, 8) + [COLON, SPACE] + PadRight(HexField(chunk), 39) + [SPACE] + Gutter(chunk)
  }

  function Lines(data: Str): (r: seq<Str>)
    ensures |r| == |Chunks(data, 16)|
  {
    var chunks := Chunks(data, 16);
    seq(|chunks|, i requires 0 <= i < |chunks| => Line(i, chunks[i]))
  }

  /** `fmt_xxd_hexdump`: every line followed by a newline. */
  function Hexdump(data: Str): (r: Str)
    ensures r == [] <==> data == []
    ensures data != [] ==> EndsWith(r, [NEWLINE])
  {
    JoinOfLines(data);
    JoinTerminated(Lines(data), [NEWLINE])
  }

  // ---------------------------------------------------------------------------
  // Chunking

  function Min(a: int, b: int): int { if a <= b then a else b }

  /** The chunk sizes the formatter uses: words of 2 bytes, lines of 16. */
  predicate ChunkSize(n: nat) { n == 2 || n == 16 }

  lemma {:induction false} ChunkCount(s: seq<byte>, n: nat)
    requires ChunkSize(n)
    ensures |Chunks(s, n)| == (|s| + n - 1) / n
    decreases |s|
  {
    if |s| > n {
      ChunkCount(s[n..], n);
      if n == 2 {
        assert (|s| - 2 + 1) / 2 + 1 == (|s| + 1) / 2;
      } else {
        assert (|s| - 16 + 15) / 16 + 1 == (|s| + 15) / 16;
      }
    }
  }

  /** A slice of a slice is a slice of the original. */
  lemma SliceOfSlice<T>(x: seq<T>, a: nat, b: nat, c: nat, d: nat)
    requires a <= b <= |x| && c <= d <= b - a
    ensures x[a..b][c..d] == x[a + c .. a + d]
  {
    var y := x[a..b];
    assert forall t :: 0 <= t < d - c ==> y[c..d][t] == y[c + t] == x[a + c + t];
  }

  /** A slice of a suffix is a slice of the original. */
  lemma SliceOfSuffix<T>(x: seq<T>, a: nat, c: nat, d: nat)
    requires a <= |x| && c <= d <= |x| - a
    ensures x[a..][c..d] == x[a + c .. a + d]
  {
  }

  /** Where piece `i` starts: `i * n`, written without multiplication. */
  function Offset(i: nat, n: nat): nat {
    if i == 0 then 0 else Offset(i - 1, n) + n
  }

  lemma {:induction false} OffsetIsProduct(i: nat, n: nat)
    ensures Offset(i, n) == i * n
  {
    if i > 0 {
      OffsetIsProduct(i - 1, n);
      assert (i - 1) * n + n == i * n;
    }
  }

  lemma {:induction false} ChunkAtOffset<T>(s: seq<T>, n: nat, i: nat)
    requires n > 0 && i < |Chunks(s, n)|
    ensures Offset(i, n) < |s| && Chunks(s, n)[i] == s[Offset(i, n) .. Min(Offset(i, n) + n, |s|)]
    decreases |s|
  {
    if i > 0 {
      var rest := s[n..];
      ChunkAtOffset(rest, n, i - 1);
      var a := Offset(i - 1, n);
      SliceOfSuffix(s, n, a, Min(a + n, |rest|));
    }
  }

  lemma ChunkAt(s: seq<byte>, n: nat, i: nat)
    requires ChunkSize(n) && i < |Chunks(s, n)|
    ensures i * n < |s| && Chunks(s, n)[i] == s[i * n .. Min(i * n + n, |s|)]
  {
    ChunkAtOffset(s, n, i);
    OffsetIsProduct(i, n);
  }

  /** The chunks, put back together, are the input. */
  lemma {:induction false} ChunksFlatten<T>(s: seq<T>, n: nat)
    requires n > 0
    ensures Flatten(Chunks(s, n)) == s
    decreases |s|
  {
    if |s| > n {
      ChunksFlatten(s[n..], n);
      assert s == s[..n] + s[n..];
    } else if s != [] {
      assert Flatten([s]) == s + Flatten([]);
    }
  }

  // ---------------------------------------------------------------------------
  // Joining

  /** Count of `b` in `s`. */
  function Count(s: Str, b: byte): nat {
    if s == [] then 0 else (if s[0] == b then 1 else 0) + Count(s[1..], b)
  }

  lemma {:induction false} CountAppend(x: Str, y: Str, b: byte)
    ensures Count(x + y, b) == Count(x, b) + Count(y, b)
  {
    if x != [] {
      assert (x + y)[1..] == x[1..] + y;
      CountAppend(x[1..], y, b);
    } else {
      assert x + y == y;
    }
  }

  lemma {:induction false} CountAbsent(x: Str, b: byte)
    requires b !in x
    ensures Count(x, b) == 0
  {
    if x != [] {
      CountAbsent(x[1..], b);
    }
  }

  /** Joining newline-free parts with a newline after each gives one newline per part. */
  lemma {:induction false} JoinCountsSeparators(parts: seq<Str>, b: byte)
    requires forall i :: 0 <= i < |parts| ==> b !in parts[i]
    ensures Count(JoinTerminated(parts, [b]), b) == |parts|
  {
    if parts != [] {
      var init, last := parts[..|parts| - 1], parts[|parts| - 1];
      JoinCountsSeparators(init, b);
      CountAppend(JoinTerminated(init, [b]) + last, [b], b);
      CountAppend(JoinTerminated(init, [b]), last, b);
      CountAbsent(last, b);
      assert Count([b], b) == 1 by { assert [b][1..] == []; }
    }
  }

  /** A slice inside the left operand of a concatenation. */
  lemma SliceOfLeft(x: Str, y: Str, a: nat, b: nat)
    requires a <= b <= |x|
    ensures (x + y)[a..b] == x[a..b]
  {
    assert forall t :: 0 <= t < b - a ==> (x + y)[a..b][t] == x[a + t];
  }

  /** A slice that is exactly the right operand of a concatenation. */
  lemma SliceOfRight(x: Str, y: Str)
    ensures (x + y)[|x| .. |x| + |y|] == y
  {
    assert forall t :: 0 <= t < |y| ==> (x + y)[|x| .. |x| + |y|][t] == y[t];
  }

  /** The fold's last step appends the last part and its separator as one cell. */
  lemma JoinStep(parts: seq<Str>, sep: Str)
    requires parts != []
    ensures JoinTerminated(parts, sep) == JoinTerminated(parts[..|parts| - 1], sep) + (parts[|parts| - 1] + sep)
  {
  }

  lemma {:induction false} JoinLength(parts: seq<Str>, sep: Str, k: nat)
    requires forall j :: 0 <= j < |parts| ==> |parts[j]| + |sep| == k
    ensures |JoinTerminated(parts, sep)| == Offset(|parts|, k)
  {
    if parts != [] {
      JoinLength(parts[..|parts| - 1], sep, k);
    }
  }

  lemma {:induction false} JoinUniformOffset(parts: seq<Str>, sep: Str, k: nat, i: nat)
    requires forall j :: 0 <= j < |parts| ==> |parts[j]| + |sep| == k
    requires i < |parts|
    ensures Offset(i, k) + k <= |JoinTerminated(parts, sep)|
    ensures JoinTerminated(parts, sep)[Offset(i, k) .. Offset(i, k) + k] == parts[i] + sep
  {
    var n := |parts|;
    var init := parts[..n - 1];
    var prefix := JoinTerminated(init, sep);
    var cell := parts[n - 1] + sep;
    JoinStep(parts, sep);
    JoinLength(init, sep, k);
    if i < n - 1 {
      JoinUniformOffset(init, sep, k, i);
      SliceOfLeft(prefix, cell, Offset(i, k), Offset(i, k) + k);
    } else {
      SliceOfRight(prefix, cell);
    }
  }

  lemma {:induction false} OffsetMonotone(i: nat, j: nat, n: nat)
    requires i <= j
    ensures Offset(i, n) <= Offset(j, n)
    decreases j
  {
    if i < j {
      OffsetMonotone(i, j - 1, n);
    }
  }

  /** The part widths the formatter joins: 4-byte words plus a space, 67-byte lines plus a newline. */
  predicate JoinWidth(k: nat) { k == 5 || k == 68 }

  lemma JoinUniform(parts: seq<Str>, sep: Str, k: nat, i: nat)
    requires JoinWidth(k)
    requires forall j :: 0 <= j < |parts| ==> |parts[j]| + |sep| == k
    requires i < |parts|
    ensures |JoinTerminated(parts, sep)| == |parts| * k
    ensures JoinTerminated(parts, sep)[i * k .. i * k + k] == parts[i] + sep
  {
    JoinLength(parts, sep, k);
    JoinUniformOffset(parts, sep, k, i);
    OffsetIsProduct(|parts|, k);
    OffsetIsProduct(i, k);
  }

  lemma JoinEndsWithSeparator(parts: seq<Str>, sep: Str)
    requires parts != []
    ensures EndsWith(JoinTerminated(parts, sep), sep)
  {
    var j := JoinTerminated(parts, sep);
    assert j == (JoinTerminated(parts[..|parts| - 1], sep) + parts[|parts| - 1]) + sep;
  }

  lemma {:induction false} JoinEmpty(parts: seq<Str>, sep: Str)
    requires sep != []
    ensures JoinTerminated(parts, sep) == [] <==> parts == []
  {
  }

  // ---------------------------------------------------------------------------
  // Hex digits

  predicate IsHexDigit(b: byte) { 0x30 <= b <= 0x39 || 0x61 <= b <= 0x66 }

  function DigitValue(b: byte): nat
    requires IsHexDigit(b)
  {
    if b <= 0x39 then (b - 0x30) as nat else (b - 0x57) as nat
  }

  predicate AllHexDigits(s: Str) { forall i :: 0 <= i < |s| ==> IsHexDigit(s[i]) }

  /** Reading hex digits back as a number. */
  function HexValue(s: Str): nat
    requires AllHexDigits(s)
  {
    if s == [] then 0 else HexValue(s[..|s| - 1]) * 16 + DigitValue(s[|s| - 1])
  }

  function Pow16(w: nat): nat {
    if w == 0 then 1 else 16 * Pow16(w - 1)
  }

  /** `HexPadded` writes hex digits that read back as the number. */
  lemma {:induction false} HexPaddedValue(n: nat, w: nat)
    ensures AllHexDigits(HexPadded(n, w)) && HexValue(HexPadded(n, w)) == n
    decreases n + w
  {
    if !(n < 16 && w <= 1) {
      var w' := if w > 0 then w - 1 else 0;
      HexPaddedValue(n / 16, w');
      var high := HexPadded(n / 16, w');
      assert (high + [HexDigit(n % 16)])[..|high|] == high;
    }
  }

  /** A number below 16^w takes exactly `w` digits once padded to `w`. */
  lemma {:induction false} HexPaddedWidth(n: nat, w: nat)
    requires w >= 1 && n < Pow16(w)
    ensures |HexPadded(n, w)| == w
    decreases w
  {
    if w > 1 {
      HexPaddedWidth(n / 16, w - 1);
    }
  }

  lemma Hex2Value(b: byte)
    ensures AllHexDigits(Hex2(b)) && HexValue(Hex2(b)) == b as nat
  {
    var h := Hex2(b);
    assert h[..1] == [h[0]];
    assert [h[0]][..0] == [];
    assert HexValue([h[0]]) == DigitValue(h[0]);
    assert HexValue(h) == DigitValue(h[0]) * 16 + DigitValue(h[1]);
  }

  // ---------------------------------------------------------------------------
  // Lines

  lemma {:induction false} JoinAvoids(parts: seq<Str>, sep: Str, b: byte)
    requires b !in sep && forall i :: 0 <= i < |parts| ==> b !in parts[i]
    ensures b !in JoinTerminated(parts, sep)
  {
    if parts != [] {
      JoinAvoids(parts[..|parts| - 1], sep, b);
    }
  }

  /** Every word is four bytes, so the field holds five bytes per started pair. */
  lemma HexFieldLength(chunk: Str)
    ensures |HexField(chunk)| == 5 * ((|chunk| + 1) / 2)
  {
    WordsUniform(chunk);
    if chunk != [] {
      JoinUniform(Words(Chunks(chunk, 2)), [SPACE], 5, 0);
    }
  }

  lemma WordAvoidsNewline(w: Str)
    requires 1 <= |w| <= 2
    ensures NEWLINE !in Word(w)
  {
    assert NEWLINE !in Hex2(w[0]);
    if |w| == 2 { assert NEWLINE !in Hex2(w[1]); }
  }

  lemma HexFieldAvoidsNewline(chunk: Str)
    ensures NEWLINE !in HexField(chunk)
  {
    var ws := Chunks(chunk, 2);
    var words := Words(ws);
    forall i | 0 <= i < |words| ensures NEWLINE !in words[i] {
      WordAvoidsNewline(ws[i]);
    }
    JoinAvoids(words, [SPACE], NEWLINE);
  }

  lemma WordLength(w: Str)
    requires 1 <= |w| <= 2
    ensures |Word(w)| == 4
  {
  }

  lemma WordsUniform(chunk: Str)
    ensures |Words(Chunks(chunk, 2))| == (|chunk| + 1) / 2
    ensures forall j :: 0 <= j < |Words(Chunks(chunk, 2))| ==> |Words(Chunks(chunk, 2))[j]| + 1 == 5
  {
    var ws := Chunks(chunk, 2);
    ChunkCount(chunk, 2);
    var words := Words(ws);
    forall j | 0 <= j < |words| ensures |words[j]| + 1 == 5 {
      WordLength(ws[j]);
    }
  }

  lemma WordOfChunk(chunk: Str, k: nat)
    requires 2 * k < |chunk|
    ensures k < |Chunks(chunk, 2)|
    ensures Words(Chunks(chunk, 2))[k] == Word(chunk[2 * k .. Min(2 * k + 2, |chunk|)])
  {
    ChunkCount(chunk, 2);
    ChunkAt(chunk, 2, k);
  }

  /** Word `k` of the hex field occupies bytes 5k .. 5k+5, its trailing space included. */
  lemma WordAt(chunk: Str, k: nat)
    requires 2 * k < |chunk|
    ensures 5 * k + 5 <= |HexField(chunk)|
    ensures HexField(chunk)[5 * k .. 5 * k + 5] == Word(chunk[2 * k .. Min(2 * k + 2, |chunk|)]) + [SPACE]
  {
    var words := Words(Chunks(chunk, 2));
    assert HexField(chunk) == JoinTerminated(words, [SPACE]);
    WordsUniform(chunk);
    WordOfChunk(chunk, k);
    JoinUniform(words, [SPACE], 5, k);
    assert 5 * k + 5 <= |words| * 5;
  }

  /** Byte `r` of a word is shown as two hex digits at offset 2r of its cell. */
  lemma WordCell(w: Str, r: nat)
    requires 1 <= |w| <= 2 && r < |w|
    ensures (Word(w) + [SPACE])[2 * r .. 2 * r + 2] == Hex2(w[r])
  {
    var cell := Word(w) + [SPACE];
    assert cell[2 * r .. 2 * r + 2] == [cell[2 * r], cell[2 * r + 1]];
  }

  /** The cell of word `k` shows byte `r` of the word at offset 5k + 2r of the field. */
  lemma CellShowsByte(field: Str, w: Str, k: nat, r: nat)
    requires 1 <= |w| <= 2 && r < |w|
    requires 5 * k + 5 <= |field| && field[5 * k .. 5 * k + 5] == Word(w) + [SPACE]
    ensures field[5 * k + 2 * r .. 5 * k + 2 * r + 2] == Hex2(w[r])
  {
    WordCell(w, r);
    SliceOfSlice(field, 5 * k, 5 * k + 5, 2 * r, 2 * r + 2);
  }

  /** Byte `j` of a chunk is shown as two hex digits at offset 5*(j/2) + 2*(j%2) of the hex field. */
  lemma HexFieldShowsByte(chunk: Str, j: nat)
    requires j < |chunk|
    ensures var p := 5 * (j / 2) + 2 * (j % 2);
      p + 2 <= |HexField(chunk)| && HexField(chunk)[p .. p + 2] == Hex2(chunk[j])
  {
    HalfSplit(j);
    FieldShowsWordByte(chunk, j / 2, j % 2);
  }

  lemma HalfSplit(j: nat)
    ensures j == 2 * (j / 2) + j % 2 && j % 2 < 2
  {
  }

  /** Byte `r` of word `k` is shown at offset 5k + 2r of the hex field. */
  lemma FieldShowsWordByte(chunk: Str, k: nat, r: nat)
    requires r < 2 && 2 * k + r < |chunk|
    ensures 5 * k + 2 * r + 2 <= |HexField(chunk)|
    ensures HexField(chunk)[5 * k + 2 * r .. 5 * k + 2 * r + 2] == Hex2(chunk[2 * k + r])
  {
    WordAt(chunk, k);
    var w := chunk[2 * k .. Min(2 * k + 2, |chunk|)];
    assert w[r] == chunk[2 * k + r];
    CellShowsByte(HexField(chunk), w, k, r);
  }

  /** An odd trailing byte is followed by two spaces and then the separator space. */
  lemma HexFieldOddTail(chunk: Str)
    requires |chunk| % 2 == 1
    ensures var p := 5 * (|chunk| / 2) + 2;
      p + 3 <= |HexField(chunk)| && HexField(chunk)[p .. p + 3] == [SPACE, SPACE, SPACE]
  {
    var k := |chunk| / 2;
    WordAt(chunk, k);
    var w := chunk[2 * k .. Min(2 * k + 2, |chunk|)];
    assert |w| == 1;
    CellTail(HexField(chunk), w, k);
  }

  /** The cell of a one-byte word ends in three spaces, at offset 5k + 2 of the field. */
  lemma CellTail(field: Str, w: Str, k: nat)
    requires |w| == 1
    requires 5 * k + 5 <= |field| && field[5 * k .. 5 * k + 5] == Word(w) + [SPACE]
    ensures field[5 * k + 2 .. 5 * k + 5] == [SPACE, SPACE, SPACE]
  {
    assert (Word(w) + [SPACE])[2..5] == [SPACE, SPACE, SPACE];
    SliceOfSlice(field, 5 * k, 5 * k + 5, 2, 5);
  }

  function Max(a: int, b: int): int { if a >= b then a else b }

  /** A line is its offset digits, `": "`, the hex field padded to 39, a space and the gutter. */
  lemma LineLength(index: nat, chunk: Str)
    requires index < 0x1_0000_0000
    ensures |Line(index, chunk)| == 11 + Max(39, 5 * ((|chunk| + 1) / 2)) + |chunk|
    ensures |chunk| == 16 ==> |Line(index, chunk)| == 67
  {
    assert Pow16(8) == 0x1_0000_0000;
    HexPaddedWidth(index, 8);
    HexFieldLength(chunk);
  }

  /** The first eight bytes are hex digits reading back as the chunk index, then `": "`. */
  lemma LinePrefix(index: nat, chunk: Str)
    requires index < 0x1_0000_0000
    ensures var line := Line(index, chunk);
      && |line| >= 10
      && AllHexDigits(line[..8]) && HexValue(line[..8]) == index
      && line[8..10] == [COLON, SPACE]
  {
    assert Pow16(8) == 0x1_0000_0000;
    HexPaddedWidth(index, 8);
    HexPaddedValue(index, 8);
    var line := Line(index, chunk);
    assert line[..8] == HexPadded(index, 8);
  }

  /** The line ends with the gutter: byte `j` of the chunk, or `.` when it is not graphic. */
  lemma LineGutter(index: nat, chunk: Str, j: nat)
    requires j < |chunk|
    ensures var line := Line(index, chunk);
      line[|line| - |chunk| + j] == (if IsGraphic(chunk[j]) then chunk[j] else DOT)
  {
  }

  lemma LineAvoidsNewline(index: nat, chunk: Str)
    ensures NEWLINE !in Line(index, chunk)
  {
    HexPaddedValue(index, 8);
    var digits := HexPadded(index, 8);
    assert NEWLINE !in digits by {
      assert forall i :: 0 <= i < |digits| ==> IsHexDigit(digits[i]);
    }
    HexFieldAvoidsNewline(chunk);
    assert NEWLINE !in Gutter(chunk);
  }

  /** The hex field sits at bytes 10 .. 10+|field| of its line. */
  lemma LineField(index: nat, chunk: Str)
    requires index < 0x1_0000_0000
    ensures var field := HexField(chunk);
      10 + |field| <= |Line(index, chunk)| && Line(index, chunk)[10 .. 10 + |field|] == field
  {
    assert Pow16(8) == 0x1_0000_0000;
    HexPaddedWidth(index, 8);
    var field := HexField(chunk);
    var head := HexPadded(index, 8) + [COLON, SPACE];
    var tail := PadRight(field, 39) + [SPACE] + Gutter(chunk);
    assert Line(index, chunk) == head + tail;
    assert tail[..|field|] == field;
    assert (head + tail)[10 .. 10 + |field|] == tail[..|field|];
  }

  /** Byte `j` of a chunk appears in its line as two hex digits, at 10 + 5*(j/2) + 2*(j%2). */
  lemma LineShowsByte(index: nat, chunk: Str, j: nat)
    requires index < 0x1_0000_0000 && j < |chunk|
    ensures var p := 10 + 5 * (j / 2) + 2 * (j % 2);
      p + 2 <= |Line(index, chunk)| && Line(index, chunk)[p .. p + 2] == Hex2(chunk[j])
  {
    HexFieldShowsByte(chunk, j);
    LineField(index, chunk);
    ShowsWithin(Line(index, chunk), HexField(chunk), 5 * (j / 2) + 2 * (j % 2), Hex2(chunk[j]));
  }

  /** Two bytes shown at offset `p` of a part that sits at offset 10 are shown at 10 + p of the whole. */
  lemma ShowsWithin(x: Str, part: Str, p: nat, shown: Str)
    requires 10 + |part| <= |x| && x[10 .. 10 + |part|] == part
    requires p + 2 <= |part| && part[p .. p + 2] == shown
    ensures 10 + p + 2 <= |x| && x[10 + p .. 10 + p + 2] == shown
  {
    SliceOfSlice(x, 10, 10 + |part|, p, p + 2);
  }

  // ---------------------------------------------------------------------------
  // The whole dump

  /** Line `i` renders bytes 16i .. 16i+16 of the data, numbered by its chunk index `i`. */
  lemma LineOfChunk(data: Str, i: nat)
    requires i < |Lines(data)|
    ensures 16 * i < |data|
    ensures Lines(data)[i] == Line(i, data[16 * i .. Min(16 * i + 16, |data|)])
  {
    ChunkAt(data, 16, i);
  }

  /** One newline per started chunk of 16 bytes. */
  lemma HexdumpLineCount(data: Str)
    ensures Count(Hexdump(data), NEWLINE) == (|data| + 15) / 16
  {
    var lines := Lines(data);
    forall i | 0 <= i < |lines| ensures NEWLINE !in lines[i] {
      LineAvoidsNewline(i, Chunks(data, 16)[i]);
    }
    JoinCountsSeparators(lines, NEWLINE);
    ChunkCount(data, 16);
  }

  /** The lines are empty exactly when the data is, and the last line is followed by a newline like every other. */
  lemma JoinOfLines(data: Str)
    ensures JoinTerminated(Lines(data), [NEWLINE]) == [] <==> data == []
    ensures data != [] ==> EndsWith(JoinTerminated(Lines(data), [NEWLINE]), [NEWLINE])
  {
    JoinEmpty(Lines(data), [NEWLINE]);
    ChunkCount(data, 16);
    if data != [] {
      JoinEndsWithSeparator(Lines(data), [NEWLINE]);
    }
  }

  /** Data of whole chunks takes 68 bytes a line: the capacity the formatter reserves. */
  lemma HexdumpWholeChunks(data: Str, i: nat)
    requires |data| % 16 == 0 && |data| <= 16 * 0x1_0000_0000 && i < |data| / 16
    ensures |Lines(data)| == |data| / 16 && |Hexdump(data)| == 68 * (|data| / 16)
    ensures Hexdump(data)[68 * i .. 68 * i + 68] == Lines(data)[i] + [NEWLINE]
  {
    var lines := Lines(data);
    ChunkCount(data, 16);
    assert |lines| == |data| / 16;
    forall j | 0 <= j < |lines| ensures |lines[j]| + 1 == 68 {
      LineOfChunk(data, j);
      assert 16 * j + 16 <= |data|;
      LineLength(j, data[16 * j .. 16 * j + 16]);
    }
    JoinUniform(lines, [NEWLINE], 68, i);
  }

  /** The digits `00000000`. */
  lemma ZeroOffset()
    ensures HexPadded(0, 8) == Ascii("00000000")
  {
    assert HexPadded(0, 1) == [0x30];
    assert HexPadded(0, 2) == [0x30, 0x30];
    assert HexPadded(0, 3) == [0x30, 0x30, 0x30];
    assert HexPadded(0, 4) == [0x30, 0x30, 0x30, 0x30];
    assert HexPadded(0, 5) == [0x30, 0x30, 0x30, 0x30, 0x30];
    assert HexPadded(0, 6) == [0x30, 0x30, 0x30, 0x30, 0x30, 0x30];
    assert HexPadded(0, 7) == [0x30, 0x30, 0x30, 0x30, 0x30, 0x30, 0x30];
  }

  /** The hex field of a lone `A`: its two digits, two spaces of padding and the separator. */
  lemma HexFieldOfA()
    ensures HexField([0x41]) == [0x34, 0x31, SPACE, SPACE, SPACE]
  {
    var data: Str := [0x41];
    assert Chunks(data, 2) == [data];
    assert Hex2(0x41) == [0x34, 0x31];
    assert Words([data]) == [Word(data)];
    assert Word(data) == [0x34, 0x31, SPACE, SPACE];
    assert JoinTerminated([Word(data)], [SPACE]) == Word(data) + [SPACE];
  }

  function Spaces(n: nat): Str { seq(n, _ => SPACE) }

  lemma SpacesJoin(a: nat, b: nat)
    ensures Spaces(a) + Spaces(b) == Spaces(a + b)
  {
  }

  /** The line of a lone `A`: the field `41` and its padding make 38 spaces before the gutter. */
  lemma LineOfA()
    ensures Line(0, [0x41]) == Ascii("00000000: 41") + Spaces(38) + [0x41]
  {
    var data: Str := [0x41];
    HexFieldOfA();
    ZeroOffset();
    assert Gutter(data) == [0x41];
    var field: Str := [0x34, 0x31, SPACE, SPACE, SPACE];
    assert field == [0x34, 0x31] + Spaces(3);
    SpacesJoin(3, 34);
    assert PadRight(field, 39) == [0x34, 0x31] + Spaces(37);
    SpacesJoin(37, 1);
    assert Ascii("00000000: 41") == Ascii("00000000") + [COLON, SPACE] + [0x34, 0x31];
  }

  /** A single `A`: one line, the field padded to 39, so 38 spaces separate the digits from the gutter. */
  lemma HexdumpOfSingleByte()
    ensures Hexdump([0x41]) == Ascii("00000000: 41") + Spaces(38) + [0x41, NEWLINE]
  {
    var data: Str := [0x41];
    assert Chunks(data, 16) == [data];
    var line := Line(0, data);
    LineOfA();
    assert Lines(data) == [line];
    assert JoinTerminated([line], [NEWLINE]) == line + [NEWLINE];
  }

  /** Seventeen bytes make two lines, the second holding only the last byte. */
  lemma HexdumpOfSeventeenBytes(data: Str)
    requires |data| == 17
    ensures |Lines(data)| == 2
    ensures Lines(data)[1] == Line(1, [data[16]])
  {
    ChunkCount(data, 16);
    LineOfChunk(data, 1);
    assert data[16..17] == [data[16]];
  }
}
