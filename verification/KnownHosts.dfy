/**
 * Certificate fingerprints and the trust-on-first-use store: internal/tlsutil/tlsutil.go. The JSON
 * codec is taken to read back what it wrote.
 */
module KnownHosts {
  import opened Integers
  import opened Wrappers

  /** The store's file: absent, unreadable, of no length, not the JSON of a store, or a stored map. */
  datatype File = Missing | Unreadable | Empty | Garbled | Stored(entries: map<string, string>) {
    /** What OpenKnownHosts makes of it. */
    function Load(): Option<map<string, string>> {
      match this
      case Missing => Some(map[])
      case Empty => Some(map[])
      case Stored(entries) => Some(entries)
      case Unreadable => None
      case Garbled => None
    }
  }

  /** How persisting the store ends: os.WriteFile truncates the file before it writes. */
  datatype Persisting = Written | Untouched | Truncated | CutShort {
    function Leaves(before: File, entries: map<string, string>): File {
      match this
      case Written => Stored(entries)
      case Untouched => before
      case Truncated => Empty
      case CutShort => Garbled
    }
  }

  /** A place on disk. */
  class Path {
    var file: File

    constructor (file: File)
      ensures this.file == file
    {
      this.file := file;
    }
  }

  class Store {
    const path: Path
    var entries: map<string, string>

    constructor (path: Path, entries: map<string, string>)
      ensures this.path == path && this.entries == entries
    {
      this.path, this.entries := path, entries;
    }

    function Lookup(addr: string): (fp: Option<string>)
      reads this
      ensures fp.Some? <==> addr in entries
      ensures fp.Some? ==> (addr, fp.value) in entries.Items
    {
      if addr in entries then Some(entries[addr]) else None
    }

    /** Pins a fingerprint: other pins are kept, and the pin is on disk exactly if there is no error. */
    method Trust(addr: string, fingerprint: string, persisting: Persisting) returns (ok: bool)
      modifies this, path
      ensures entries == old(entries)[addr := fingerprint]
      ensures path.file == persisting.Leaves(old(path.file), entries)
      ensures ok <==> persisting.Written?
    {
      entries := entries[addr := fingerprint];
      match persisting {
        case Written => path.file := Stored(entries);
        case Untouched =>
        case Truncated => path.file := Empty;
        case CutShort => path.file := Garbled;
      }
      ok := persisting.Written?;
    }
  }

  method OpenKnownHosts(path: Path) returns (store: Option<Store>)
    ensures store.Some? <==> path.file.Load().Some?
    ensures store.Some? ==>
            fresh(store.value) && store.value.path == path && store.value.entries == path.file.Load().value
  {
    match path.file {
      case Unreadable => store := None;
      case Garbled => store := None;
      case Missing =>
        var s := new Store(path, map[]);
        store := Some(s);
      case Empty =>
        var s := new Store(path, map[]);
        store := Some(s);
      case Stored(entries) =>
        var s := new Store(path, entries);
        store := Some(s);
    }
  }

  // ---------------------------------------------------------------- fingerprints

  function HexDigit(n: nat): (c: char)
    requires n < 16
  {
    "0123456789ABCDEF"[n]
  }

  function HexByte(b: byte): (s: string)
    ensures |s| == 2
  {
    [HexDigit(b / 16), HexDigit(b % 16)]
  }

  /** The colon-separated hex pairs of a digest. */
  function Pairs(sum: seq<byte>): string {
    if sum == [] then "" else if |sum| == 1 then HexByte(sum[0]) else HexByte(sum[0]) + ":" + Pairs(sum[1..])
  }

  function Join(parts: seq<string>): string {
    if parts == [] then "" else if |parts| == 1 then parts[0] else parts[0] + ":" + Join(parts[1..])
  }

  method Fingerprint(der: seq<byte>, sha256: seq<byte> -> seq<byte>) returns (fp: string)
    ensures fp == Pairs(sha256(der))
  {
    var sum := sha256(der);
    var parts := new string[|sum|](_ => "");
    for i := 0 to |sum|
      invariant forall k | 0 <= k < i :: parts[k] == HexByte(sum[k])
    {
      parts[i] := HexByte(sum[i]);
    }
    JoinOfPairs(sum, parts[..]);
    fp := Join(parts[..]);
  }

  lemma {:induction false} JoinOfPairs(sum: seq<byte>, parts: seq<string>)
    requires |parts| == |sum| && forall k | 0 <= k < |sum| :: parts[k] == HexByte(sum[k])
    ensures Join(parts) == Pairs(sum)
  {
    if |sum| > 1 {
      JoinOfPairs(sum[1..], parts[1..]);
    }
  }

  /** What a digit is worth. */
  function DigitValue(c: char): int {
    if '0' <= c <= '9' then c as int - '0' as int
    else if 'A' <= c <= 'F' then c as int - 'A' as int + 10
    else -1
  }

  lemma DigitsAreWorth(n: nat)
    requires n < 16
    ensures DigitValue(HexDigit(n)) == n
  {
  }

  /**
   * A fingerprint byte by byte: two digits worth the byte, the high one first, and a colon before the next.
   */
  lemma {:induction false} PairsAre(sum: seq<byte>, k: nat)
    requires k < |sum|
    ensures |Pairs(sum)| == 3 * |sum| - 1
    ensures DigitValue(Pairs(sum)[3 * k]) >= 0 && DigitValue(Pairs(sum)[3 * k + 1]) >= 0
    ensures 16 * DigitValue(Pairs(sum)[3 * k]) + DigitValue(Pairs(sum)[3 * k + 1]) == sum[k]
    ensures k + 1 < |sum| ==> Pairs(sum)[3 * k + 2] == ':'
  {
    DigitsAreWorth(sum[k] / 16);
    DigitsAreWorth(sum[k] % 16);
    if |sum| > 1 {
      PairsAre(sum[1..], if k > 0 then k - 1 else 0);
    }
  }

  lemma HexDigitsDiffer(a: nat, b: nat)
    requires a < 16 && b < 16 && HexDigit(a) == HexDigit(b)
    ensures a == b
  {
  }

  lemma HexBytesDiffer(a: byte, b: byte)
    requires HexByte(a) == HexByte(b)
    ensures a == b
  {
    assert HexByte(a)[0] == HexByte(b)[0] && HexByte(a)[1] == HexByte(b)[1];
    HexDigitsDiffer(a / 16, b / 16);
    HexDigitsDiffer(a % 16, b % 16);
  }

  /** Two fingerprints are the same string exactly if the digests are the same. */
  lemma {:induction false} PairsIdentify(a: seq<byte>, b: seq<byte>)
    requires |a| == |b|
    ensures Pairs(a) == Pairs(b) <==> a == b
  {
    if a != [] && Pairs(a) == Pairs(b) {
      assert HexByte(a[0]) == Pairs(a)[..2] && HexByte(b[0]) == Pairs(b)[..2];
      HexBytesDiffer(a[0], b[0]);
      if |a| > 1 {
        assert Pairs(a)[3..] == Pairs(a[1..]) && Pairs(b)[3..] == Pairs(b[1..]);
        PairsIdentify(a[1..], b[1..]);
        assert a == [a[0]] + a[1..] && b == [b[0]] + b[1..];
      }
    }
  }
}
