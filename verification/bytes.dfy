/** Byte strings: the `std::string` of the source, its order, its prefixes and the
    little-endian `uint32_t` that the table format stores. */
module Bytes {
  type Byte = c: char | c as int < 256 witness 'a'
  type Str = seq<Byte>

  const U32_LIMIT := 0x1_0000_0000

  /** `std::string::operator<`: lexicographic on unsigned bytes. */
  predicate Less(a: Str, b: Str) {
    b != [] && (a == [] || a[0] < b[0] || (a[0] == b[0] && Less(a[1..], b[1..])))
  }

  /** `key.compare(0, prefix.size(), prefix) == 0`. */
  predicate HasPrefix(s: Str, prefix: Str) {
    |prefix| <= |s| && s[..|prefix|] == prefix
  }

  /** The two agree up to a position where `a` ends first or has the smaller byte. */
  predicate SmallerAt(a: Str, b: Str, i: nat) {
    && i <= |a| && i <= |b| && a[..i] == b[..i]
    && (i == |a| < |b| || (i < |a| && i < |b| && a[i] as int < b[i] as int))
  }

  lemma SmallerAtTail(a: Str, b: Str, i: nat)
    requires a != [] && b != [] && a[0] == b[0]
    ensures SmallerAt(a, b, i + 1) <==> SmallerAt(a[1..], b[1..], i)
  {
    if i < |a| && i < |b| {
      assert a[..i + 1] == [a[0]] + a[1..][..i] && b[..i + 1] == [b[0]] + b[1..][..i];
    }
  }

  ghost predicate Smaller(a: Str, b: Str) {
    exists i: nat :: SmallerAt(a, b, i)
  }

  lemma {:induction false} LessIsSmaller(a: Str, b: Str)
    ensures Less(a, b) <==> Smaller(a, b)
  {
    if a == [] || b == [] || a[0] != b[0] {
      assert SmallerAt(a, b, 0) <==> Less(a, b);
      assert forall i: nat | 0 < i <= |a| && i <= |b| :: a[..i][0] == a[0] && b[..i][0] == b[0];
    } else {
      LessIsSmaller(a[1..], b[1..]);
      if i: nat :| SmallerAt(a[1..], b[1..], i) {
        SmallerAtTail(a, b, i);
      }
      if i: nat :| SmallerAt(a, b, i) {
        SmallerAtTail(a, b, i - 1);
      }
    }
  }

  /** The order without its recursion: the strings agree up to a position where the smaller
      one ends, or has the smaller byte. */
  lemma LessExactly(a: Str, b: Str)
    ensures Less(a, b) <==>
            exists i | 0 <= i <= |a| && i <= |b| ::
              a[..i] == b[..i] && (i == |a| < |b| || (i < |a| && i < |b| && a[i] as int < b[i] as int))
  {
    LessIsSmaller(a, b);
    if i: nat :| SmallerAt(a, b, i) {
      assert a[..i] == b[..i];
    }
    if i :| 0 <= i <= |a| && i <= |b| && a[..i] == b[..i]
            && (i == |a| < |b| || (i < |a| && i < |b| && a[i] as int < b[i] as int)) {
      assert SmallerAt(a, b, i);
    }
  }

  lemma HasPrefixExactly(s: Str, prefix: Str)
    ensures HasPrefix(s, prefix) <==> exists tail: Str :: s == prefix + tail
  {
    if HasPrefix(s, prefix) {
      assert s == prefix + s[|prefix|..];
    }
  }

  lemma {:induction false} LessTransitive(a: Str, b: Str, c: Str)
    requires Less(a, b) && Less(b, c)
    ensures Less(a, c)
  {
    if a != [] && a[0] == b[0] == c[0] {
      LessTransitive(a[1..], b[1..], c[1..]);
    }
  }

  lemma {:induction false} LessTotal(a: Str, b: Str)
    ensures Less(a, b) || a == b || Less(b, a)
    ensures !(Less(a, b) && Less(b, a))
    ensures Less(a, b) ==> a != b
  {
    if a != [] && b != [] && a[0] == b[0] {
      LessTotal(a[1..], b[1..]);
    }
  }

  /** A string that carries the prefix is not below it. */
  lemma {:induction false} PrefixIsLeast(prefix: Str, s: Str)
    requires HasPrefix(s, prefix)
    ensures !Less(s, prefix)
  {
    if prefix == [] {
    } else {
      assert s[0] == prefix[0];
      PrefixIsLeast(prefix[1..], s[1..]);
    }
  }

  /** The strings with one prefix are contiguous in the order: whatever lies between the
      prefix and a string that carries it carries it too. */
  lemma {:induction false} PrefixIsConvex(prefix: Str, a: Str, b: Str)
    requires !Less(a, prefix) && !Less(b, a) && HasPrefix(b, prefix)
    ensures HasPrefix(a, prefix)
  {
    if prefix == [] {
    } else {
      assert b[0] == prefix[0];
      PrefixIsConvex(prefix[1..], a[1..], b[1..]);
    }
  }

  /** Below every other string of the set. */
  predicate IsLeast(key: Str, keys: set<Str>) {
    forall k | k in keys :: k == key || Less(key, k)
  }

  lemma {:induction false} LeastExists(keys: set<Str>)
    requires keys != {}
    ensures exists key :: key in keys && IsLeast(key, keys)
    decreases keys
  {
    var some :| some in keys;
    var others := keys - {some};
    if others == {} {
      assert keys == {some};
      assert IsLeast(some, keys);
    } else {
      LeastExists(others);
      var least :| least in others && IsLeast(least, others);
      LeastOfMore(keys, some, others, least);
    }
  }

  lemma LeastOfMore(keys: set<Str>, some: Str, others: set<Str>, least: Str)
    requires keys == others + {some} && least in others && IsLeast(least, others)
    ensures IsLeast(some, keys) || IsLeast(least, keys)
  {
    LessTotal(some, least);
    if Less(some, least) {
      forall k | k in keys
        ensures k == some || Less(some, k)
      {
        if k != some && k != least {
          LessTransitive(some, least, k);
        }
      }
    }
  }

  lemma {:induction false} LessBehindPrefix(prefix: Str, a: Str, b: Str)
    ensures Less(prefix + a, prefix + b) <==> Less(a, b)
  {
    if prefix == [] {
      assert prefix + a == a && prefix + b == b;
    } else {
      assert (prefix + a)[1..] == prefix[1..] + a && (prefix + b)[1..] == prefix[1..] + b;
      LessBehindPrefix(prefix[1..], a, b);
    }
  }

  /** The low `width` bytes of a number, least significant first. */
  function LittleEndian(n: nat, width: nat): (r: Str)
    ensures |r| == width
  {
    if width == 0 then [] else [(n % 256) as char] + LittleEndian(n / 256, width - 1)
  }

  /** The bytes of a `uint32_t` on a little-endian machine. */
  function U32(n: nat): (r: Str)
    requires n < U32_LIMIT
    ensures |r| == 4
  {
    LittleEndian(n, 4)
  }

  /** The `uint32_t` read at a position. */
  function GetU32(s: Str, pos: nat): (n: nat)
    requires pos + 4 <= |s|
    ensures n < U32_LIMIT
  {
    s[pos] as int + 256 * (s[pos + 1] as int + 256 * (s[pos + 2] as int + 256 * (s[pos + 3] as int)))
  }

  /** The four bytes, least significant first. */
  lemma U32Bytes(n: nat)
    requires n < 4294967296
    ensures U32(n) == [(n % 256) as char, (n / 256 % 256) as char, (n / 65536 % 256) as char, (n / 16777216) as char]
  {
    assert LittleEndian(n, 4) == [(n % 256) as char] + LittleEndian(n / 256, 3);
    assert LittleEndian(n / 256, 3) == [(n / 256 % 256) as char] + LittleEndian(n / 256 / 256, 2);
    assert LittleEndian(n / 256 / 256, 2) ==
           [(n / 256 / 256 % 256) as char] + LittleEndian(n / 256 / 256 / 256, 1);
    assert LittleEndian(n / 256 / 256 / 256, 1) == [(n / 256 / 256 / 256 % 256) as char] + LittleEndian(0, 0);
  }

  lemma U32RoundTrip(n: nat, s: Str, pos: nat)
    requires n < U32_LIMIT && At(s, pos, U32(n))
    ensures GetU32(s, pos) == n
  {
    var r := U32(n);
    assert r == [(n % 256) as char] + LittleEndian(n / 256, 3);
    assert LittleEndian(n / 256, 3) == [(n / 256 % 256) as char] + LittleEndian(n / 256 / 256, 2);
    assert LittleEndian(n / 256 / 256, 2) ==
           [(n / 256 / 256 % 256) as char] + LittleEndian(n / 256 / 256 / 256, 1);
    assert LittleEndian(n / 256 / 256 / 256, 1) == [(n / 256 / 256 / 256 % 256) as char] + LittleEndian(0, 0);
    assert s[pos + 0] == r[0] && s[pos + 1] == r[1] && s[pos + 2] == r[2] && s[pos + 3] == r[3];
  }

  lemma LowByte(low: nat, high: nat)
    requires low < 256
    ensures (low + 256 * high) % 256 == low && (low + 256 * high) / 256 == high
  {
  }

  lemma LowByteFirst(low: nat, high: nat, width: nat)
    requires low < 256
    ensures LittleEndian(low + 256 * high, width + 1) == [low as char] + LittleEndian(high, width)
  {
    LowByte(low, high);
  }

  /** Every four bytes are the bytes of the number that they read as. */
  lemma U32Converse(s: Str, pos: nat)
    requires pos + 4 <= |s|
    ensures U32(GetU32(s, pos)) == s[pos..pos + 4]
  {
    var a, b, c, d := s[pos] as int, s[pos + 1] as int, s[pos + 2] as int, s[pos + 3] as int;
    LowByteFirst(a, b + 256 * (c + 256 * d), 3);
    LowByteFirst(b, c + 256 * d, 2);
    LowByteFirst(c, d, 1);
    LowByteFirst(d, 0, 0);
    assert LittleEndian(0, 0) == [];
  }

  /** The file holds the string at a position. */
  predicate At(file: Str, pos: nat, s: Str) {
    pos + |s| <= |file| && forall i | 0 <= i < |s| :: file[pos + i] == s[i]
  }

  lemma AtIsSlice(file: Str, pos: nat, s: Str)
    ensures At(file, pos, s) <==> pos + |s| <= |file| && file[pos..pos + |s|] == s
  {
    if At(file, pos, s) {
      assert forall i | 0 <= i < |s| :: file[pos..pos + |s|][i] == s[i];
    }
    if pos + |s| <= |file| && file[pos..pos + |s|] == s {
      forall i | 0 <= i < |s|
        ensures file[pos + i] == s[i]
      {
        assert file[pos..pos + |s|][i] == s[i];
      }
    }
  }

  lemma JoinAt(file: Str, pos: nat, a: Str, b: Str)
    requires At(file, pos, a) && At(file, pos + |a|, b)
    ensures At(file, pos, a + b)
  {
    forall i | 0 <= i < |a + b|
      ensures file[pos + i] == (a + b)[i]
    {
      assert i >= |a| ==> file[pos + |a| + (i - |a|)] == b[i - |a|];
    }
  }

  lemma AtParts(file: Str, pos: nat, a: Str, b: Str)
    requires At(file, pos, a + b)
    ensures At(file, pos, a) && At(file, pos + |a|, b)
  {
    assert forall i | 0 <= i < |a| :: a[i] == (a + b)[i];
    forall i | 0 <= i < |b|
      ensures file[pos + |a| + i] == b[i]
    {
      assert b[i] == (a + b)[|a| + i];
    }
  }

  lemma AtSlice(s: Str, tail: Str, i: nat, j: nat)
    requires i <= j <= |s|
    ensures At(s + tail, i, s[i..j])
  {
  }

  lemma AtEnd(s: Str, a: Str, b: Str)
    ensures At(s + (a + b), |s|, a)
  {
    assert forall i | 0 <= i < |a| :: a[i] == (a + b)[i] == (s + (a + b))[|s| + i];
  }

  /** A run of zero bytes: what pre-allocation leaves behind the records. */
  function Zeros(n: nat): (z: Str)
    ensures |z| == n
    ensures forall i | 0 <= i < n :: z[i] == 0 as char
  {
    seq(n, i => 0 as char)
  }
}
