/**
  The control file: a temporary file the desktop key scripts append to and the
  input poller reads back. Each script runs `echo "%u "` with its key index, so
  the file is a whitespace-separated list of decimal numbers; the poller reads
  it with repeated `fscanf("%hhu")` until end of file.
 */
module ControlFile {
  import opened Wrappers
  import opened Ascii

  /** `ULONG_MAX` on an LP64 system: the value `strtoul` saturates at. */
  const ULONG_MAX: nat := 0xFFFF_FFFF_FFFF_FFFF

  /**
    The `unsigned char` that `%hhu` stores for a digit run of value `v`: the
    `unsigned long` conversion saturates, then the store keeps the low 8 bits.
   */
  function Hhu(v: nat): (b: byte)
    ensures v < 256 ==> b as nat == v
    ensures ULONG_MAX < v ==> b == 255
  {
    if ULONG_MAX < v then 255 else (v % 256) as byte
  }

  /** Text `fscanf("%hhu")` can consume to the end: digit runs separated by whitespace. */
  predicate Scannable(t: seq<byte>) {
    forall i :: 0 <= i < |t| ==> IsDigit(t[i]) || IsSpace(t[i])
  }

  /**
    The values the read loop appends to the backlog, in file order. Each
    conversion skips leading whitespace and takes the longest digit run;
    trailing whitespace ends the loop at end of file. `None` is text with
    any other byte, on which the conversion stops matching without reaching
    end of file.
   */
  function Parse(t: seq<byte>): (r: Option<seq<byte>>)
    ensures r.Some? <==> Scannable(t)
    ensures r.Some? ==> |r.value| <= |t|
    decreases |t|
  {
    if |t| == 0 then Some([])
    else if IsSpace(t[0]) then
      ScannableSplit(t, 1);
      Parse(t[1..])
    else if IsDigit(t[0]) then
      var k := ScanDigits(t);
      ScannableSplit(t, k);
      var rest :- Parse(t[k..]);
      Some([Hhu(ValueFrom(0, t[..k]))] + rest)
    else None
  }

  /** Scannability of a text is that of any two halves it is cut into. */
  lemma ScannableSplit(t: seq<byte>, k: nat)
    requires k <= |t|
    ensures Scannable(t) <==> Scannable(t[..k]) && Scannable(t[k..])
  {
    if Scannable(t[..k]) && Scannable(t[k..]) {
      forall i | 0 <= i < |t|
        ensures IsDigit(t[i]) || IsSpace(t[i])
      {
        if i < k {
          assert t[i] == t[..k][i];
        } else {
          assert t[i] == t[k..][i - k];
        }
      }
    }
  }

  /** The text one key script appends: the key index in decimal, a space and echo's newline. */
  function Line(v: byte): (r: seq<byte>)
    ensures 3 <= |r|
    ensures r[|r| - 2..] == [SPACE, NEWLINE]
  {
    Decimal(v as nat) + [SPACE, NEWLINE]
  }

  /** A text that ends where a number cannot continue: empty, or ending in whitespace. */
  predicate Separated(t: seq<byte>) {
    |t| == 0 || IsSpace(t[|t| - 1])
  }

  /** The text of the scripts for `vs` run in order. */
  function Lines(vs: seq<byte>): (r: seq<byte>)
    ensures |vs| == 0 <==> |r| == 0
    ensures Separated(r)
    decreases |vs|
  {
    if |vs| == 0 then []
    else
      var front, last := Lines(vs[..|vs| - 1]), Line(vs[|vs| - 1]);
      assert (front + last)[|front + last| - 1] == last[|last| - 1];
      front + last
  }

  function Join(x: Option<seq<byte>>, y: Option<seq<byte>>): Option<seq<byte>> {
    if x.Some? && y.Some? then Some(x.value + y.value) else None
  }

  /** The digit run at the front of `a` ends inside `a` when `a` is separated, whatever follows. */
  lemma ScanInside(a: seq<byte>, b: seq<byte>)
    requires |a| > 0 && IsSpace(a[|a| - 1])
    ensures ScanDigits(a) < |a|
    ensures ScanDigits(a + b) == ScanDigits(a)
    ensures (a + b)[..ScanDigits(a)] == a[..ScanDigits(a)]
    ensures (a + b)[ScanDigits(a)..] == a[ScanDigits(a)..] + b
  {
    var k := ScanDigits(a);
    assert a == a[..k] + a[k..];
    assert a + b == a[..k] + (a[k..] + b);
    ScanDigitsRun(a[..k], a[k..] + b);
  }

  lemma JoinAssoc(x: Option<seq<byte>>, y: Option<seq<byte>>, z: Option<seq<byte>>)
    ensures Join(x, Join(y, z)) == Join(Join(x, y), z)
  {
    if x.Some? && y.Some? && z.Some? {
      assert x.value + (y.value + z.value) == (x.value + y.value) + z.value;
    }
  }

  /** A text starting with a digit yields that digit run's value, then whatever its remainder yields. */
  lemma ParseNumber(t: seq<byte>)
    requires |t| > 0 && IsDigit(t[0])
    ensures 0 < ScanDigits(t)
    ensures Parse(t) == Join(Some([Hhu(ValueFrom(0, t[..ScanDigits(t)]))]), Parse(t[ScanDigits(t)..]))
  {
  }

  /**
    Reading a file is reading its two parts in turn, provided the first part
    is separated from the second, so no number straddles the cut.
   */
  lemma {:induction false} ParseAppend(a: seq<byte>, b: seq<byte>)
    requires Separated(a)
    ensures Parse(a + b) == Join(Parse(a), Parse(b))
    decreases |a|
  {
    if |a| == 0 {
      assert a + b == b;
      if Parse(b).Some? {
        assert [] + Parse(b).value == Parse(b).value;
      }
    } else if IsSpace(a[0]) {
      assert (a + b)[1..] == a[1..] + b;
      ParseAppend(a[1..], b);
    } else if IsDigit(a[0]) {
      var k := ScanDigits(a);
      ScanInside(a, b);
      assert a[k..][|a[k..]| - 1] == a[|a| - 1];
      ParseAppend(a[k..], b);
      ParseNumber(a);
      ParseNumber(a + b);
      JoinAssoc(Some([Hhu(ValueFrom(0, a[..k]))]), Parse(a[k..]), Parse(b));
    } else {
      assert (a + b)[0] == a[0];
    }
  }

  /** `%u` text of a byte value, followed by anything that is not a digit, yields that value first. */
  lemma ParseDecimal(v: byte, rest: seq<byte>)
    requires StopsDigits(rest)
    ensures Parse(Decimal(v as nat) + rest) == Join(Some([v]), Parse(rest))
  {
    var t := Decimal(v as nat) + rest;
    ReadDecimal(v as nat, rest);
    assert t[0] == Decimal(v as nat)[0];
    ParseNumber(t);
    assert t[ScanDigits(t)..] == rest;
  }

  /** One script's line is read back as its key index. */
  lemma ParseLine(v: byte)
    ensures Parse(Line(v)) == Some([v])
  {
    ParseDecimal(v, [SPACE, NEWLINE]);
    ParseBlank([SPACE, NEWLINE]);
    assert [v] + [] == [v];
  }

  /** A script run after a separated file adds its key index at the end of what is read. */
  lemma AppendLine(t: seq<byte>, v: byte)
    requires Separated(t)
    ensures Parse(t + Line(v)) == Join(Parse(t), Some([v]))
  {
    ParseAppend(t, Line(v));
    ParseLine(v);
  }

  /** The scripts for `vs` leave the text of all but the last, then the last one's line. */
  lemma LinesSnoc(vs: seq<byte>)
    requires |vs| > 0
    ensures Lines(vs) == Lines(vs[..|vs| - 1]) + Line(vs[|vs| - 1])
  {
  }

  /** Round trip: the file the scripts leave behind is read back as the keys pressed, in order. */
  lemma {:induction false} ParseLines(vs: seq<byte>)
    ensures Parse(Lines(vs)) == Some(vs)
    decreases |vs|
  {
    if |vs| > 0 {
      var front, last := vs[..|vs| - 1], vs[|vs| - 1];
      assert front + [last] == vs;
      LinesSnoc(vs);
      ParseLines(front);
      AppendLine(Lines(front), last);
    }
  }

  /** Whitespace alone holds no numbers. */
  lemma {:induction false} ParseBlank(t: seq<byte>)
    requires forall i :: 0 <= i < |t| ==> IsSpace(t[i])
    ensures Parse(t) == Some([])
    decreases |t|
  {
    if |t| > 0 {
      ParseBlank(t[1..]);
    }
  }
}
