/**
 * The one-file-per-piece store of storage.js: piece `i` lives in the file
 * named `pad(i)` inside the store's folder. The folder is a map from file
 * name to contents.
 */
module FolderStore {
  import opened Bytes

  // ---------------------------------------------------------- file names

  function DigitChar(d: nat): (c: char)
    requires d < 10
    ensures '0' <= c <= '9'
    ensures c == '0' <==> d == 0
  {
    ('0' as int + d) as char
  }

  /** `'' + i` for a natural number: its decimal digits. */
  function Decimal(n: nat): (s: seq<char>)
    ensures |s| >= 1
    ensures forall k :: 0 <= k < |s| ==> '0' <= s[k] <= '9'
    decreases n
  {
    if n < 10 then [DigitChar(n)] else Decimal(n / 10) + [DigitChar(n % 10)]
  }

  /** The number a string of decimal digits stands for. */
  function Value(s: seq<char>): nat
    requires forall k :: 0 <= k < |s| ==> '0' <= s[k] <= '9'
  {
    if s == [] then 0 else Value(s[..|s| - 1]) * 10 + (s[|s| - 1] as int - '0' as int)
  }

  /** Reading the digits back gives the number. */
  lemma {:induction false} ValueOfDecimal(n: nat)
    ensures Value(Decimal(n)) == n
    decreases n
  {
    if n >= 10 {
      ValueOfDecimal(n / 10);
      var s := Decimal(n);
      assert s[..|s| - 1] == Decimal(n / 10);
    } else {
      assert Decimal(n)[..0] == [];
    }
  }

  /** Different numbers are written differently. */
  lemma DecimalInjective(m: nat, n: nat)
    requires Decimal(m) == Decimal(n)
    ensures m == n
  {
    ValueOfDecimal(m);
    ValueOfDecimal(n);
  }

  /** Only zero is written with a leading `0`. */
  lemma {:induction false} DecimalLeading(n: nat)
    ensures Decimal(n)[0] == '0' <==> n == 0
    decreases n
  {
    if n >= 10 {
      DecimalLeading(n / 10);
    }
  }

  function Pow10(k: nat): (r: nat)
    ensures r >= 1
  {
    if k == 0 then 1 else 10 * Pow10(k - 1)
  }

  /** The number of digits: `n` has at most `k` digits exactly when `n < 10^k`. */
  lemma {:induction false} DecimalLength(n: nat, k: nat)
    requires k >= 1
    ensures |Decimal(n)| <= k <==> n < Pow10(k)
    decreases n
  {
    if n >= 10 && k >= 2 {
      DecimalLength(n / 10, k - 1);
    }
  }

  const ZEROS: seq<char> := "00000000000"

  function ZeroChars(n: nat): (r: seq<char>)
    ensures |r| == n
    ensures forall k :: 0 <= k < n ==> r[k] == '0'
  {
    seq(n, _ => '0')
  }

  /**
   * How many zeros `'00000000000'.slice(0, 10 - len)` keeps: `10 - len`
   * for up to ten digits; a negative end counts back from the eleven
   * characters, so eleven digits keep ten zeros, twelve keep nine, ...
   */
  function PadWidth(len: nat): (z: nat)
    ensures len <= 10 ==> z == 10 - len
    ensures z <= |ZEROS|
  {
    var end := 10 - len;
    if end >= 0 then end else if |ZEROS| + end < 0 then 0 else |ZEROS| + end
  }

  /** `pad(i)`: the zeros kept from the slice, then the digits of `i`. */
  function Pad(i: nat): (name: seq<char>)
  {
    ZeroChars(PadWidth(|Decimal(i)|)) + Decimal(i)
  }

  /** A piece index below 10^10 has a ten-character name ending in its digits. */
  lemma PadTen(i: nat)
    requires i < Pow10(10)
    ensures |Pad(i)| == 10
    ensures Pad(i)[10 - |Decimal(i)|..] == Decimal(i)
    ensures forall k :: 0 <= k < 10 - |Decimal(i)| ==> Pad(i)[k] == '0'
  {
    DecimalLength(i, 10);
  }

  /** The number of `0` characters a string starts with. */
  function LeadingZeros(s: seq<char>): nat
  {
    if s == [] || s[0] != '0' then 0 else 1 + LeadingZeros(s[1..])
  }

  /** Zeros in front of a number's digits: one more leading zero exactly when the number is zero. */
  lemma {:induction false} LeadingZerosOf(a: nat, m: nat)
    ensures LeadingZeros(ZeroChars(a) + Decimal(m)) == a + (if m == 0 then 1 else 0)
  {
    DecimalLeading(m);
    if a == 0 {
      assert ZeroChars(a) + Decimal(m) == Decimal(m);
      if m == 0 {
        assert Decimal(m)[1..] == [];
      }
    } else {
      assert (ZeroChars(a) + Decimal(m))[1..] == ZeroChars(a - 1) + Decimal(m);
      LeadingZerosOf(a - 1, m);
    }
  }

  /** Some zeros followed by a number's digits determine the number. */
  lemma ZerosThenDigits(a: nat, m: nat, b: nat, n: nat)
    requires ZeroChars(a) + Decimal(m) == ZeroChars(b) + Decimal(n)
    ensures m == n
  {
    LeadingZerosOf(a, m);
    LeadingZerosOf(b, n);
    assert a == b;
    assert Decimal(m) == (ZeroChars(a) + Decimal(m))[a..];
    DecimalInjective(m, n);
  }

  /** Distinct pieces are stored in distinct files. */
  lemma PadInjective(i: nat, j: nat)
    requires Pad(i) == Pad(j)
    ensures i == j
  {
    ZerosThenDigits(PadWidth(|Decimal(i)|), i, PadWidth(|Decimal(j)|), j);
  }

  // ----------------------------------------------------------- the store

  datatype ReadResult = Found(data: Bytes) | NoSuchFile

  /** What reading piece `index` from a folder gives. */
  function Lookup(disk: map<seq<char>, Bytes>, index: nat): ReadResult
  {
    if Pad(index) in disk then Found(disk[Pad(index)]) else NoSuchFile
  }

  /** A write of piece `i` is read back at `i` and leaves every other piece as it was. */
  lemma WriteThenLookup(disk: map<seq<char>, Bytes>, i: nat, buf: Bytes, j: nat)
    ensures Lookup(disk[Pad(i) := buf], j) == if j == i then Found(buf) else Lookup(disk, j)
  {
    if j != i && Pad(j) == Pad(i) {
      PadInjective(j, i);
    }
  }

  /**
   * The store object: `read` is `fs.readFile(join(folder, pad(index)))`,
   * `write` is `fs.writeFile` of the same path, `destroy` removes the folder.
   */
  class Folder {
    var disk: map<seq<char>, Bytes>

    constructor (disk: map<seq<char>, Bytes>)
      ensures this.disk == disk
    {
      this.disk := disk;
    }

    method Read(index: nat) returns (r: ReadResult)
      ensures r == Lookup(disk, index)
      ensures r.Found? <==> Pad(index) in disk
    {
      var name := Pad(index);
      if name in disk {
        r := Found(disk[name]);
      } else {
        r := NoSuchFile;
      }
    }

    method Write(index: nat, buffer: Bytes)
      modifies this
      ensures disk == old(disk)[Pad(index) := buffer]
    {
      disk := disk[Pad(index) := buffer];
    }

    /** `rimraf(folder)`: every piece file is gone. */
    method Destroy()
      modifies this
      ensures disk == map[]
    {
      disk := map[];
    }
  }
}
