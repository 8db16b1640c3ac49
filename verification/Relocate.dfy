/** internal/capture/relocate.go: the windowed search of a captured file for the capture-time home, and
    the sniff that calls the file binary. */
module Relocate {

  newtype byte = b: int | 0 <= b < 256

  const SCAN_CHUNK: nat := 65536
  const BINARY_SNIFF: nat := 8000

  predicate Occurs(hay: seq<byte>, needle: seq<byte>) {
    exists i: nat :: i <= |hay| && OccursAt(hay, needle, i)
  }

  predicate OccursAt(hay: seq<byte>, needle: seq<byte>, i: nat) {
    i + |needle| <= |hay| && hay[i..i + |needle|] == needle
  }

  /** The file looks binary: a NUL among its opening bytes. */
  predicate LooksBinary(data: seq<byte>) {
    0 in data[..if |data| < BINARY_SNIFF then |data| else BINARY_SNIFF]
  }

  /** Byte by byte: a file looks binary when one of its first 8000 bytes is a NUL, and holds the needle where it
      agrees with it all along. */
  lemma {:induction false} AnswersMean(data: seq<byte>, needle: seq<byte>)
    ensures LooksBinary(data) <==> exists i :: 0 <= i < |data| && i < 8000 && data[i] == 0
    ensures Occurs(data, needle) <==> exists i: nat :: AgreesAt(data, needle, i)
  {
    var head := data[..if |data| < BINARY_SNIFF then |data| else BINARY_SNIFF];
    if 0 in head {
      var i :| 0 <= i < |head| && head[i] == 0;
      assert data[i] == 0;
    }
    if i :| 0 <= i < |data| && i < 8000 && data[i] == 0 { assert head[i] == 0; }
    forall i: nat ensures OccursAt(data, needle, i) <==> AgreesAt(data, needle, i) {
      if AgreesAt(data, needle, i) { assert data[i..i + |needle|] == needle; }
      if OccursAt(data, needle, i) {
        forall j | 0 <= j < |needle| ensures data[i + j] == needle[j] { assert data[i..i + |needle|][j] == data[i + j]; }
      }
    }
    if i: nat :| AgreesAt(data, needle, i) { assert OccursAt(data, needle, i) && i <= |data|; }
    if i: nat :| i <= |data| && OccursAt(data, needle, i) { assert AgreesAt(data, needle, i); }
  }

  predicate AgreesAt(hay: seq<byte>, needle: seq<byte>, i: nat) {
    i + |needle| <= |hay| && forall j :: 0 <= j < |needle| ==> hay[i + j] == needle[j]
  }

  function Min(a: nat, b: nat): nat {
    if a < b then a else b
  }

  /** How the reader answers one call: at most this many bytes, possibly an error with them, and
      whether the end of the file is reported together with its last bytes. */
  datatype Grant = Grant(size: nat, fails: bool, endsEarly: bool)

  datatype Status = More | End | Failed

  /** One read into buf[from..]. */
  method Read(data: seq<byte>, pos: nat, grant: Grant, buf: array<byte>, from: nat) returns (n: nat, status: Status)
    requires pos <= |data| && from <= buf.Length
    modifies buf
    ensures n == Min(grant.size, Min(buf.Length - from, |data| - pos))
    ensures buf[..from] == old(buf[..from]) && buf[from..from + n] == data[pos..pos + n]
    ensures status == if grant.fails then Failed
                      else if pos == |data| || (grant.endsEarly && pos + n == |data|) then End else More
  {
    n := Min(grant.size, Min(buf.Length - from, |data| - pos));
    for i := 0 to n
      invariant buf[..from] == old(buf[..from])
      invariant buf[from..from + i] == data[pos..pos + i]
    {
      buf[from + i] := data[pos + i];
      assert buf[from..from + i + 1] == buf[from..from + i] + [data[pos + i]];
    }
    status := if grant.fails then Failed
              else if pos == |data| || (grant.endsEarly && pos + n == |data|) then End else More;
  }

  /** The window after a read: what was carried, then what was read, is one stretch of the file. */
  method ReadWindow(data: seq<byte>, read: nat, grant: Grant, buf: array<byte>, carried: nat) returns (len: nat, status: Status)
    requires carried <= read <= |data| && carried <= buf.Length && buf[..carried] == data[read - carried..read]
    modifies buf
    ensures carried <= len <= buf.Length && read + len - carried <= |data|
    ensures len - carried == Min(grant.size, Min(buf.Length - carried, |data| - read))
    ensures buf[..len] == data[read - carried..read + len - carried]
    ensures status == Failed ==> grant.fails
    ensures status == End ==> read + len - carried == |data|
    ensures status == More && len == carried ==> read < |data|
  {
    var n;
    n, status := Read(data, read, grant, buf, carried);
    len := carried + n;
    assert buf[..len] == buf[..carried] + buf[carried..len];
    SliceSplit(data, read - carried, read, read + n);
  }

  /** Carry the last bytes of buf[..len] to its front, in place; the two ranges may overlap. */
  method CarryTail(buf: array<byte>, len: nat, overlap: nat) returns (carried: nat)
    requires len <= buf.Length
    modifies buf
    ensures carried == Min(len, overlap) && buf[..carried] == old(buf[..len])[len - carried..len]
  {
    if len <= overlap {
      return len;
    }
    for i := 0 to overlap
      invariant forall j :: 0 <= j < i ==> buf[j] == old(buf[len - overlap + j])
      invariant forall j :: i <= j < buf.Length ==> buf[j] == old(buf[j])
    {
      buf[i] := buf[len - overlap + i];
    }
    carried := overlap;
    ghost var tail := old(buf[..len])[len - overlap..len];
    forall j | 0 <= j < overlap ensures buf[..overlap][j] == tail[j] {
      assert tail[j] == old(buf[len - overlap + j]);
    }
  }

  /** The one bug a chunked search has: an occurrence in what has been read is in what had been read
      before, or in the new window, as soon as the window keeps one byte less than the needle. */
  lemma {:induction false} WindowSuffices(data: seq<byte>, needle: seq<byte>, seen: nat, carried: nat, upto: nat)
    requires needle != [] && seen <= upto <= |data|
    requires carried == Min(seen, |needle| - 1)
    ensures Occurs(data[..upto], needle) <==> Occurs(data[..seen], needle) || Occurs(data[seen - carried..upto], needle)
  {
    var window, start := data[seen - carried..upto], seen - carried;
    SliceOfSlice(data, 0, upto, 0, seen);
    if Occurs(data[..seen], needle) { OccursInWhole(data[..upto], data[..seen], 0, needle); }
    SliceOfSlice(data, 0, upto, start, upto);
    if Occurs(window, needle) { OccursInWhole(data[..upto], window, start, needle); }
    if Occurs(data[..upto], needle) {
      var i: nat :| i <= upto && OccursAt(data[..upto], needle, i);
      SliceOfSlice(data, 0, upto, i, i + |needle|);
      if i + |needle| <= seen {
        OccursInPart(data, 0, seen, needle, i);
      } else {
        OccursInPart(data, start, upto, needle, i);
      }
    }
  }

  /** An occurrence between two bounds is one in what lies between them. */
  lemma {:induction false} OccursInPart(data: seq<byte>, lo: nat, hi: nat, needle: seq<byte>, i: nat)
    requires lo <= i && i + |needle| <= hi <= |data| && data[i..i + |needle|] == needle
    ensures Occurs(data[lo..hi], needle)
  {
    SliceOfSlice(data, lo, hi, i - lo, i - lo + |needle|);
    assert OccursAt(data[lo..hi], needle, i - lo);
  }

  /** An occurrence in a part is one in the whole. */
  lemma {:induction false} OccursInWhole(whole: seq<byte>, part: seq<byte>, start: nat, needle: seq<byte>)
    requires start + |part| <= |whole| && whole[start..start + |part|] == part
    requires Occurs(part, needle)
    ensures Occurs(whole, needle)
  {
    var i: nat :| i <= |part| && OccursAt(part, needle, i);
    SliceOfSlice(whole, start, start + |part|, i, i + |needle|);
    assert OccursAt(whole, needle, start + i);
  }

  lemma {:induction false} SliceSplit<T>(data: seq<T>, lo: nat, mid: nat, hi: nat)
    requires lo <= mid <= hi <= |data|
    ensures data[lo..hi] == data[lo..mid] + data[mid..hi]
  {}

  lemma {:induction false} SliceOfSlice<T>(data: seq<T>, lo: nat, hi: nat, a: nat, b: nat)
    requires lo <= hi <= |data| && a <= b <= hi - lo
    ensures data[lo..hi][a..b] == data[lo + a..lo + b]
  {
    var one, two := data[lo..hi][a..b], data[lo + a..lo + b];
    forall j | 0 <= j < b - a ensures one[j] == two[j] {
      assert data[lo..hi][a + j] == data[lo + (a + j)];
    }
  }

  /** The sniff never looks twice at a byte, nor past its window. */
  lemma {:induction false} SniffAdvances(data: seq<byte>, seen: nat, upto: nat)
    requires seen <= upto <= |data|
    ensures var sniffed, next := Min(seen, BINARY_SNIFF), Min(upto, BINARY_SNIFF);
            0 in data[..next] <==> 0 in data[..sniffed] || 0 in data[seen..Min(upto, seen + (BINARY_SNIFF - sniffed))]
  {
    var sniffed, next := Min(seen, BINARY_SNIFF), Min(upto, BINARY_SNIFF);
    if seen < BINARY_SNIFF {
      assert data[..next] == data[..sniffed] + data[seen..next];
      assert Min(upto, seen + (BINARY_SNIFF - sniffed)) == next;
    } else {
      assert data[seen..Min(upto, seen + (BINARY_SNIFF - sniffed))] == [];
    }
  }

  /** Examine one window: sniff its new bytes while the sniff lasts, and search all of it. */
  method ScanWindow(ghost data: seq<byte>, ghost seen: nat, window: seq<byte>, carried: nat, needle: seq<byte>,
                    sniffed: nat, found: bool, binary: bool)
    returns (sniffed': nat, found': bool, binary': bool)
    requires needle != [] && carried <= |window| && seen + |window| - carried <= |data|
    requires carried == Min(seen, |needle| - 1) && sniffed == Min(seen, BINARY_SNIFF)
    requires window == data[seen - carried..seen + |window| - carried]
    requires (found <==> Occurs(data[..seen], needle)) && (binary <==> 0 in data[..sniffed])
    ensures var upto := seen + |window| - carried;
            && sniffed' == Min(upto, BINARY_SNIFF)
            && (found' <==> Occurs(data[..upto], needle)) && (binary' <==> 0 in data[..sniffed'])
  {
    ghost var upto := seen + |window| - carried;
    sniffed', binary' := Sniff(data, seen, window, carried, sniffed, binary);
    WindowSuffices(data, needle, seen, carried, upto);
    found' := found || Occurs(window, needle);
  }

  /** The sniff of one window: its new bytes, as far as the sniff still goes. */
  method Sniff(ghost data: seq<byte>, ghost seen: nat, window: seq<byte>, carried: nat, sniffed: nat, binary: bool)
    returns (sniffed': nat, binary': bool)
    requires carried <= |window| && carried <= seen && seen + |window| - carried <= |data| && sniffed == Min(seen, BINARY_SNIFF)
    requires window == data[seen - carried..seen + |window| - carried]
    requires binary <==> 0 in data[..sniffed]
    ensures sniffed' == Min(seen + |window| - carried, BINARY_SNIFF) && (binary' <==> 0 in data[..sniffed'])
  {
    ghost var upto := seen + |window| - carried;
    sniffed', binary' := sniffed, binary;
    SniffAdvances(data, seen, upto);
    if sniffed < BINARY_SNIFF {
      var sniff := window[carried..carried + Min(|window| - carried, BINARY_SNIFF - sniffed)];
      SliceOfSlice(data, seen - carried, upto, carried, carried + |sniff|);
      if 0 in sniff { binary' := true; }
      sniffed' := sniffed + |sniff|;
    }
  }

  /** What the loop knows after reading the first `read` bytes of the file. */
  ghost predicate Seen(data: seq<byte>, needle: seq<byte>, read: nat, sniffed: nat, found: bool, binary: bool) {
    && read <= |data| && sniffed == Min(read, BINARY_SNIFF)
    && (found <==> Occurs(data[..read], needle))
    && (binary <==> 0 in data[..sniffed])
  }

  /** Read one window and examine it. */
  method Absorb(data: seq<byte>, grant: Grant, buf: array<byte>, carried: nat, needle: seq<byte>,
                read: nat, sniffed: nat, found: bool, binary: bool)
    returns (len: nat, read': nat, sniffed': nat, found': bool, binary': bool, status: Status)
    requires needle != [] && Seen(data, needle, read, sniffed, found, binary)
    requires carried == Min(read, |needle| - 1) && carried < buf.Length && buf[..carried] == data[read - carried..read]
    modifies buf
    ensures Seen(data, needle, read', sniffed', found', binary')
    ensures carried <= len <= buf.Length && read' == read + len - carried
    ensures buf[..len] == data[read - carried..read']
    ensures status == Failed ==> grant.fails
    ensures status == End ==> read' == |data|
    ensures status == More && read' == read ==> read < |data| && grant.size == 0
  {
    sniffed', found', binary' := sniffed, found, binary;
    len, status := ReadWindow(data, read, grant, buf, carried);
    read' := read + len - carried;
    if len > carried {
      sniffed', found', binary' := ScanWindow(data, read, buf[..len], carried, needle, sniffed, found, binary);
    }
  }

  /** fileHasPrefix. For every content and every way the reader hands it over, an answer without an
      error is exact, whatever it was cut into, and an answer with one only ever misses. */
  method FileHasPrefix(data: seq<byte>, plan: seq<Grant>, needle: seq<byte>) returns (found: bool, binary: bool, failed: bool)
    ensures needle == [] ==> !found && !binary && !failed
    ensures needle != [] && !failed ==> (found <==> Occurs(data, needle)) && (binary <==> LooksBinary(data))
    ensures failed ==> exists g :: g in plan && g.fails
    ensures needle != [] && failed ==> (found ==> Occurs(data, needle)) && (binary ==> LooksBinary(data))
  {
    if needle == [] {
      return false, false, false;
    }
    var overlap := |needle| - 1;
    var buf := new byte[SCAN_CHUNK + overlap];
    var carried, sniffed, read, calls := 0, 0, 0, 0;
    found, binary := false, false;
    while true
      invariant Seen(data, needle, read, sniffed, found, binary)
      invariant carried == Min(read, overlap) && buf[..carried] == data[read - carried..read]
      decreases |data| - read, if calls < |plan| then |plan| - calls else 0
    {
      var grant := if calls < |plan| then plan[calls] else Grant(|data|, false, false);
      calls := calls + 1;
      var len, upto, status;
      len, upto, sniffed, found, binary, status := Absorb(data, grant, buf, carried, needle, read, sniffed, found, binary);
      Concluded(data, needle, upto, sniffed, found, binary);
      if found && binary {
        return true, true, false;
      }
      ghost var start := read - carried;
      carried := CarryTail(buf, len, overlap);
      SliceOfSlice(data, start, upto, len - carried, len);
      read := upto;
      if status == End {
        return found, binary, false;
      }
      if status == Failed {
        return found, binary, true;
      }
    }
  }

  /** What the bytes read so far show, the whole file shows; and once all are read, nothing else. */
  lemma {:induction false} Concluded(data: seq<byte>, needle: seq<byte>, read: nat, sniffed: nat, found: bool, binary: bool)
    requires Seen(data, needle, read, sniffed, found, binary)
    ensures found ==> Occurs(data, needle)
    ensures binary ==> LooksBinary(data)
    ensures read == |data| ==> (found <==> Occurs(data, needle)) && (binary <==> LooksBinary(data))
  {
    if Occurs(data[..read], needle) { OccursInWhole(data, data[..read], 0, needle); }
    assert data[..Min(read, BINARY_SNIFF)] == data[..Min(|data|, BINARY_SNIFF)][..Min(read, BINARY_SNIFF)];
    assert read == |data| ==> data[..read] == data;
  }
}
