/**
 The base64 coder of bsd_base64.c: `b64_ntop` and `b64_pton`.  The reference encoding is
 section 5.2 of RFC 1521: the input is cut into 24-bit groups, each read as four 6-bit
 values, and a short last group is filled with zero bits and padded with `=`.
 */
module Base64 {
  import opened Bitwise

  const PAD: char := '='
  const UPPER := "ABCDEFGHIJKLMNOPQRSTUVWXYZ"
  const LOWER := "abcdefghijklmnopqrstuvwxyz"
  const ALPHABET := UPPER + LOWER + "0123456789+/"

  type sextet = v: nat | v < 64

  // ALPHABET[v], written by ranges.
  function Symbol(v: sextet): char
  {
    if v < 26 then ('A' as int + v) as char
    else if v < 52 then ('a' as int + (v - 26)) as char
    else if v < 62 then ('0' as int + (v - 52)) as char
    else if v == 62 then '+' else '/'
  }

  // The offset that strchr finds, or -1.
  function Index(c: char): (pos: int)
    ensures -1 <= pos < 64
    ensures pos >= 0 ==> Symbol(pos) == c
    ensures pos < 0 ==> forall v: sextet :: Symbol(v) != c
  {
    if 'A' <= c <= 'Z' then c as int - 'A' as int
    else if 'a' <= c <= 'z' then c as int - 'a' as int + 26
    else if '0' <= c <= '9' then c as int - '0' as int + 52
    else if c == '+' then 62
    else if c == '/' then 63
    else -1
  }

  // isspace() in the C locale.
  predicate IsSpace(c: char)
  {
    c == ' ' || '\t' <= c <= '\r'
  }

  // A string with its whitespace removed.
  function Strip(s: string): string
  {
    if s == "" then ""
    else Strip(s[..|s| - 1]) + (if IsSpace(s[|s| - 1]) then "" else [s[|s| - 1]])
  }

  //////////////////////////////////////////////////////////////////////////////
  // The encoding of RFC 1521
  //////////////////////////////////////////////////////////////////////////////

  // A 24-bit group as four 6-bit values.
  function Group(a: byte, b: byte, c: byte): (g: seq<sextet>)
    ensures |g| == 4
  {
    var n: nat := a * 0x1_0000 + b * 0x100 + c;
    [n / 64 / 64 / 64, n / 64 / 64 % 64, n / 64 % 64, n % 64]
  }

  function Values(s: seq<byte>): seq<sextet>
  {
    if s == [] then []
    else if |s| == 1 then Group(s[0], 0, 0)[..2]
    else if |s| == 2 then Group(s[0], s[1], 0)[..3]
    else Group(s[0], s[1], s[2]) + Values(s[3..])
  }

  function Symbols(vs: seq<sextet>): string
  {
    seq(|vs|, i requires 0 <= i < |vs| => Symbol(vs[i]))
  }

  function Padding(n: nat): string
  {
    if n % 3 == 0 then "" else if n % 3 == 1 then "==" else "="
  }

  function Encode(s: seq<byte>): string
  {
    Symbols(Values(s)) + Padding(|s|)
  }

  // The buffer the decoder needs for n bytes: one spare byte unless 3 divides n.
  function Room(n: nat): nat
  {
    if n % 3 == 0 then n else n + 1
  }

  lemma AlphabetSymbols(v: sextet)
    ensures |ALPHABET| == 64 && Symbol(v) == ALPHABET[v]
  {
    if v < 26 { assert ALPHABET[v] == UPPER[v]; }
    else if v < 52 { assert ALPHABET[v] == LOWER[v - 26]; }
    else { assert ALPHABET[v] == "0123456789+/"[v - 52]; }
  }

  //////////////////////////////////////////////////////////////////////////////
  // Properties of the encoding
  //////////////////////////////////////////////////////////////////////////////

  // The number of 6-bit values that n bytes take.
  function DigitCount(n: nat): nat
  {
    (4 * n + 2) / 3
  }

  lemma DigitCountAt(q: nat, k: nat)
    requires k < 3
    ensures DigitCount(3 * q + k) == 4 * q + (if k == 0 then 0 else k + 1)
  {
  }

  lemma DigitCountStep(n: nat)
    requires n >= 3
    ensures DigitCount(n) == DigitCount(n - 3) + 4 && (n - 3) % 3 == n % 3
    ensures n % 3 != 0 ==> DigitCount(n - 3) > 0
  {
  }

  lemma ValuesCons(s: seq<byte>)
    requires |s| >= 3
    ensures |Values(s)| == |Values(s[3..])| + 4
    ensures Values(s[3..]) != [] ==> Values(s)[|Values(s)| - 1] == Values(s[3..])[|Values(s[3..])| - 1]
  {
    hide Group;
  }

  // The four values of a group, and the group that four values make.
  lemma GroupDigits(a: byte, b: byte, c: byte, u: sextet, v: sextet, w: sextet, x: sextet)
    requires a == u * 4 + v / 16 && b == v % 16 * 16 + w / 4 && c == w % 4 * 64 + x
    ensures Group(a, b, c) == [u, v, w, x]
  {
    var n: nat := a * 0x1_0000 + b * 0x100 + c;
    var m: nat := u * 4096 + v * 64 + w;
    assert n == m * 64 + x by {
      assert v == v / 16 * 16 + v % 16 && w == w / 4 * 4 + w % 4;
    }
    assert n / 64 == m && n % 64 == x;
    assert m / 64 == u * 64 + v && m % 64 == w;
  }

  // The shifts and masks by which the source picks 6-bit values out of bytes.
  function S0(a: byte): sextet { a / 4 }
  function S1(a: byte, b: byte): sextet { a % 4 * 16 + b / 16 }
  function S2(b: byte, c: byte): sextet { b % 16 * 4 + c / 64 }
  function S3(c: byte): sextet { c % 64 }

  lemma GroupShifts(a: byte, b: byte, c: byte)
    ensures Group(a, b, c) == [S0(a), S1(a, b), S2(b, c), S3(c)]
  {
    GroupDigits(a, b, c, S0(a), S1(a, b), S2(b, c), S3(c));
  }

  lemma ValuesOne(a: byte)
    ensures Values([a]) == [S0(a), S1(a, 0)]
  {
    GroupShifts(a, 0, 0);
    hide Group, S0, S1, S2, S3;
  }

  lemma ValuesTwo(a: byte, b: byte)
    ensures Values([a, b]) == [S0(a), S1(a, b), S2(b, 0)]
  {
    GroupShifts(a, b, 0);
    hide Group, S0, S1, S2, S3;
  }

  lemma SpareBits(b: byte)
    ensures S1(b, 0) % 16 == 0 && S2(b, 0) % 4 == 0
  {
  }

  lemma ShortCounts()
    ensures DigitCount(0) == 0 && DigitCount(1) == 2 && DigitCount(2) == 3
  {
  }

  lemma ValuesNone()
    ensures Values([]) == []
  {
  }

  lemma ShortShape(s: seq<byte>)
    requires |s| < 3
    ensures |Values(s)| == DigitCount(|s|)
    ensures |s| == 1 ==> Values(s)[1] % 16 == 0
    ensures |s| == 2 ==> Values(s)[2] % 4 == 0
  {
    hide *;
    ShortCounts();
    if |s| == 1 {
      ValuesOne(s[0]);
      SpareBits(s[0]);
      assert s == [s[0]];
    } else if |s| == 2 {
      ValuesTwo(s[0], s[1]);
      SpareBits(s[1]);
      assert s == [s[0], s[1]];
    } else {
      ValuesNone();
    }
  }

  // Counts, and the zero bits that fill a short last group.
  lemma {:induction false} ValuesShape(s: seq<byte>)
    ensures |Values(s)| == DigitCount(|s|)
    ensures |s| % 3 == 1 ==> Values(s)[|Values(s)| - 1] % 16 == 0
    ensures |s| % 3 == 2 ==> Values(s)[|Values(s)| - 1] % 4 == 0
  {
    if |s| >= 3 {
      hide Values, DigitCount;
      ValuesShape(s[3..]);
      ValuesCons(s);
      DigitCountStep(|s|);
    } else {
      ShortShape(s);
    }
  }

  lemma {:induction false} ValuesAppend(s: seq<byte>, t: seq<byte>)
    requires |s| % 3 == 0
    ensures Values(s + t) == Values(s) + Values(t)
  {
    if s == [] {
      assert s + t == t;
    } else {
      hide Values, Group;
      ValuesAppend(s[3..], t);
      assert (s + t)[3..] == s[3..] + t;
      ValuesUnfold(s);
      ValuesUnfold(s + t);
      assert Group(s[0], s[1], s[2]) + Values(s[3..]) + Values(t) == Group(s[0], s[1], s[2]) + (Values(s[3..]) + Values(t));
    }
  }

  lemma ValuesUnfold(s: seq<byte>)
    requires |s| >= 3
    ensures Values(s) == Group(s[0], s[1], s[2]) + Values(s[3..])
  {
  }

  lemma ValuesAppendGroup(s: seq<byte>, a: byte, b: byte, c: byte)
    requires |s| % 3 == 0
    ensures Values(s + [a, b, c]) == Values(s) + Group(a, b, c)
  {
    hide Values, Group;
    ValuesAppend(s, [a, b, c]);
    ValuesUnfold([a, b, c]);
    ValuesNone();
    assert [a, b, c][3..] == [];
    assert Group(a, b, c) + [] == Group(a, b, c);
  }

  lemma SymbolsAppend(us: seq<sextet>, vs: seq<sextet>)
    ensures Symbols(us + vs) == Symbols(us) + Symbols(vs)
  {
  }

  lemma SymbolInjective(u: sextet, v: sextet)
    requires Symbol(u) == Symbol(v)
    ensures u == v
  {
  }

  // Reading past the end of a C string finds its terminator.
  function CharAt(s: string, k: nat): char
  {
    if k < |s| then s[k] else '\0'
  }

  lemma CharAtDigits(us: seq<sextet>, p: string, k: nat)
    ensures CharAt(Symbols(us) + p, k) == if k < |us| then Symbol(us[k]) else CharAt(p, k - |us|)
  {
  }

  // The digits of a text end where its first other character is.
  lemma SameDigits(us: seq<sextet>, vs: seq<sextet>, p: string, q: string)
    requires Symbols(us) + p == Symbols(vs) + q
    requires Index(CharAt(p, 0)) < 0 && Index(CharAt(q, 0)) < 0
    ensures us == vs && p == q
  {
    CharAtDigits(us, p, |us|);
    CharAtDigits(vs, q, |us|);
    CharAtDigits(us, p, |vs|);
    CharAtDigits(vs, q, |vs|);
    assert |us| == |vs|;
    var s, t := Symbols(us) + p, Symbols(vs) + q;
    forall k | 0 <= k < |us| ensures us[k] == vs[k] {
      assert s[k] == t[k];
      SymbolInjective(us[k], vs[k]);
    }
    assert p == s[|us|..] && q == t[|us|..];
  }

  // Distinct byte strings have distinct encodings.
  lemma {:induction false} ValuesInjective(s: seq<byte>, t: seq<byte>)
    requires |s| == |t| && Values(s) == Values(t)
    ensures s == t
  {
    var u, v := Values(s), Values(t);
    hide Group, S0, S1, S2, S3;
    if |s| == 1 {
      GroupShifts(s[0], 0, 0);
      GroupShifts(t[0], 0, 0);
      assert u[0] == v[0] && u[1] == v[1];
      ShiftsInjective(s[0], 0, 0, t[0], 0, 0);
    } else if |s| == 2 {
      GroupShifts(s[0], s[1], 0);
      GroupShifts(t[0], t[1], 0);
      assert u[0] == v[0] && u[1] == v[1] && u[2] == v[2];
      ShiftsInjective(s[0], s[1], 0, t[0], t[1], 0);
    } else if |s| >= 3 {
      assert u[..4] == Group(s[0], s[1], s[2]) && v[..4] == Group(t[0], t[1], t[2]);
      assert u[4..] == Values(s[3..]) && v[4..] == Values(t[3..]);
      hide Values;
      GroupInjective(s[0], s[1], s[2], t[0], t[1], t[2]);
      ValuesInjective(s[3..], t[3..]);
      assert s == [s[0], s[1], s[2]] + s[3..] && t == [t[0], t[1], t[2]] + t[3..];
    }
  }

  lemma GroupInjective(a: byte, b: byte, c: byte, x: byte, y: byte, z: byte)
    requires Group(a, b, c) == Group(x, y, z)
    ensures a == x && b == y && c == z
  {
    hide Group, S0, S1, S2, S3;
    GroupShifts(a, b, c);
    GroupShifts(x, y, z);
    var g, h := Group(a, b, c), Group(x, y, z);
    assert g[0] == h[0] && g[1] == h[1] && g[2] == h[2] && g[3] == h[3];
    ShiftsInjective(a, b, c, x, y, z);
  }

  lemma ShiftsInjective(a: byte, b: byte, c: byte, x: byte, y: byte, z: byte)
    requires S0(a) == S0(x) && S1(a, b) == S1(x, y) && S2(b, c) == S2(y, z) && S3(c) == S3(z)
    ensures a == x && b == y && c == z
  {
  }

  lemma EncodeInjective(s: seq<byte>, t: seq<byte>)
    requires Encode(s) == Encode(t)
    ensures s == t
  {
    SameDigits(Values(s), Values(t), Padding(|s|), Padding(|t|));
    ValuesShape(s);
    ValuesShape(t);
    ValuesInjective(s, t);
  }

  lemma EncodeAppend(s: seq<byte>, t: seq<byte>)
    requires |s| % 3 == 0
    ensures Encode(s + t) == Encode(s) + Encode(t)
  {
    hide Values;
    ValuesAppend(s, t);
    SymbolsAppend(Values(s), Values(t));
    assert |s + t| % 3 == |t| % 3;
  }

  // The characters the source writes for three input bytes, by its shifts and masks.
  function GroupText(a: byte, b: byte, c: byte): (t: string)
    ensures |t| == 4
  {
    [Symbol(S0(a)), Symbol(S1(a, b)), Symbol(S2(b, c)), Symbol(S3(c))]
  }

  // The characters it writes for the one or two bytes left over.
  function TailText(a: byte, b: byte, one: bool): (t: string)
    ensures |t| == 4
  {
    [Symbol(S0(a)), Symbol(S1(a, b)), if one then PAD else Symbol(S2(b, 0)), PAD]
  }

  // The text of one full group, and of a short one.
  lemma EncodeGroup(a: byte, b: byte, c: byte)
    ensures Encode([a, b, c]) == GroupText(a, b, c)
  {
    hide Group;
    GroupShifts(a, b, c);
    ValuesAppendGroup([], a, b, c);
    assert [] + [a, b, c] == [a, b, c];
  }

  lemma EncodeOne(a: byte)
    ensures Encode([a]) == TailText(a, 0, true)
  {
    hide Group;
    GroupShifts(a, 0, 0);
  }

  lemma EncodeTwo(a: byte, b: byte)
    ensures Encode([a, b]) == TailText(a, b, false)
  {
    hide Group;
    GroupShifts(a, b, 0);
  }

  lemma {:induction false} EncodeLength(s: seq<byte>)
    ensures |Encode(s)| == (|s| + 2) / 3 * 4
  {
    hide Encode;
    if |s| >= 3 {
      EncodeLength(s[3..]);
      EncodeGroup(s[0], s[1], s[2]);
      assert s == [s[0], s[1], s[2]] + s[3..];
      EncodeAppend([s[0], s[1], s[2]], s[3..]);
      assert (|s| + 2) / 3 == (|s[3..]| + 2) / 3 + 1;
    } else if |s| == 2 {
      EncodeTwo(s[0], s[1]);
      assert s == [s[0], s[1]];
    } else if |s| == 1 {
      EncodeOne(s[0]);
      assert s == [s[0]];
    } else {
      EncodeNone();
    }
  }

  lemma EncodeNone()
    ensures Encode([]) == ""
  {
  }

  //////////////////////////////////////////////////////////////////////////////
  // b64_ntop
  //////////////////////////////////////////////////////////////////////////////

  lemma EncodeStep(src: seq<byte>, k: nat, m: nat)
    requires k % 3 == 0 && k < m <= |src| && (m == k + 3 || m == |src|)
    ensures m < k + 3 ==> |src| < k + 3
    ensures Encode(src[..m]) == Encode(src[..k]) + Encode(src[k..m])
    ensures |Encode(src)| >= |Encode(src[..k])| + 4
  {
    hide Encode;
    assert src[..m] == src[..k] + src[k..m];
    EncodeAppend(src[..k], src[k..m]);
    assert src == src[..k] + src[k..];
    EncodeAppend(src[..k], src[k..]);
    EncodeLength(src[k..]);
  }

  lemma GroupStep(src: seq<byte>, k: nat)
    requires k % 3 == 0 && k + 3 <= |src|
    ensures (k + 3) % 3 == 0
    ensures Encode(src[..k + 3]) == Encode(src[..k]) + GroupText(src[k], src[k + 1], src[k + 2])
    ensures |Encode(src)| >= |Encode(src[..k])| + 4
  {
    hide Encode, GroupText;
    EncodeStep(src, k, k + 3);
    EncodeGroup(src[k], src[k + 1], src[k + 2]);
    assert src[k..k + 3] == [src[k], src[k + 1], src[k + 2]];
  }

  method PutBlock(target: array<char>, dl: nat, block: string)
    requires |block| == 4 && dl + 4 <= target.Length
    modifies target
    ensures target[..dl + 4] == old(target[..dl]) + block
    ensures forall i :: dl + 4 <= i < target.Length ==> target[i] == old(target[i])
  {
    target[dl] := block[0];
    target[dl + 1] := block[1];
    target[dl + 2] := block[2];
    target[dl + 3] := block[3];
  }

  // The loop over full groups.  It gives up when the next block does not fit.
  method NtopGroups(src: seq<byte>, target: array<char>, targsize: nat) returns (ok: bool, k: nat, dl: nat)
    requires targsize <= target.Length
    modifies target
    ensures !ok ==> targsize < |Encode(src)|
    ensures ok ==> |src| - 2 <= k <= |src| && k % 3 == 0 && dl <= targsize && target[..dl] == Encode(src[..k])
    ensures forall i :: targsize <= i < target.Length ==> target[i] == old(target[i])
  {
    EncodeLength([]);
    assert src[..0] == [];
    hide Encode, GroupText;
    k, dl := 0, 0;
    while 2 < |src| - k
      invariant 0 <= k <= |src| && k % 3 == 0 && dl <= targsize
      invariant target[..dl] == Encode(src[..k])
      invariant forall i :: targsize <= i < target.Length ==> target[i] == old(target[i])
    {
      GroupStep(src, k);
      if dl + 4 > targsize {
        return false, k, dl;
      }
      PutBlock(target, dl, GroupText(src[k], src[k + 1], src[k + 2]));
      k, dl := k + 3, dl + 4;
    }
    ok := true;
  }

  // Encodes src into target as a NUL-terminated string; fails, with -1, exactly when the
  // text and its terminator do not fit.
  method Ntop(src: seq<byte>, target: array<char>, targsize: nat) returns (r: int)
    requires targsize <= target.Length
    modifies target
    ensures r == -1 <==> targsize < |Encode(src)| + 1
    ensures r != -1 ==> 0 <= r < targsize && target[..r] == Encode(src) && target[r] == '\0'
    ensures forall i :: targsize <= i < target.Length ==> target[i] == old(target[i])
  {
    hide Encode, TailText;
    var ok, k, dl := NtopGroups(src, target, targsize);
    if !ok {
      return -1;
    }
    if |src| - k != 0 {
      var a: byte := src[k];
      var b: byte := if |src| - k == 2 then src[k + 1] else 0;
      EncodeStep(src, k, |src|);
      if dl + 4 > targsize {
        return -1;
      }
      EncodeOne(a);
      EncodeTwo(a, b);
      assert src[k..] == if |src| - k == 1 then [a] else [a, b];
      PutBlock(target, dl, TailText(a, b, |src| - k == 1));
      dl := dl + 4;
    }
    assert src[..|src|] == src;
    if dl >= targsize {
      return -1;
    }
    target[dl] := '\0';
    r := dl;
  }

  //////////////////////////////////////////////////////////////////////////////
  // b64_pton: the target while digits arrive
  //////////////////////////////////////////////////////////////////////////////

  // tarindex after n digits: the number of bytes already complete.
  function Bytes(n: nat): nat
  {
    n / 4 * 3 + (if n % 4 == 0 then 0 else n % 4 - 1)
  }

  // What the target holds once the digits vs are stored: read back as values, the bytes
  // written so far give vs, followed in mid-group by one value that is still zero.
  ghost predicate Holds(target: array<byte>, size: nat, vs: seq<sextet>)
    requires size <= target.Length
    reads target
  {
    var ti := Bytes(|vs|);
    if |vs| % 4 == 0 then ti <= size && Values(target[..ti]) == vs
    else ti < size && Values(target[..ti + 1]) == vs + [0]
  }

  // No byte string that needs n digits or more fits a target of this size.
  ghost predicate Overflows(n: nat, size: nat)
  {
    forall m: nat :: DigitCount(m) >= n ==> Room(m) > size
  }

  // The values of a string that ends in a short or full group.
  lemma ValuesTail1(p: seq<byte>, a: byte)
    requires |p| % 3 == 0
    ensures Values(p + [a]) == Values(p) + [S0(a), S1(a, 0)]
  {
    hide *;
    ValuesAppend(p, [a]);
    ValuesOne(a);
  }

  lemma ValuesTail2(p: seq<byte>, a: byte, b: byte)
    requires |p| % 3 == 0
    ensures Values(p + [a, b]) == Values(p) + [S0(a), S1(a, b), S2(b, 0)]
  {
    hide *;
    ValuesAppend(p, [a, b]);
    ValuesTwo(a, b);
  }

  lemma ValuesTail3(p: seq<byte>, a: byte, b: byte, c: byte)
    requires |p| % 3 == 0
    ensures Values(p + [a, b, c]) == Values(p) + [S0(a), S1(a, b), S2(b, c), S3(c)]
  {
    hide Values, Group, S0, S1, S2, S3;
    ValuesAppendGroup(p, a, b, c);
    GroupShifts(a, b, c);
  }

  // The number that digits spell.
  function Number(s: seq<nat>, base: nat): nat
  {
    if s == [] then 0 else Number(s[..|s| - 1], base) * base + s[|s| - 1]
  }

  lemma NumberNext(s: seq<nat>, d: nat, base: nat)
    ensures Number(s + [d], base) == Number(s, base) * base + d
  {
    assert (s + [d])[..|s|] == s;
  }

  lemma NumberTwo(s: seq<nat>, d: nat, e: nat, base: nat)
    ensures Number(s + [d, e], base) == (Number(s, base) * base + d) * base + e
  {
    NumberNext(s, d, base);
    NumberNext(s + [d], e, base);
    assert s + [d] + [e] == s + [d, e];
  }

  lemma NumberThree(s: seq<nat>, d: nat, e: nat, f: nat, base: nat)
    ensures Number(s + [d, e, f], base) == ((Number(s, base) * base + d) * base + e) * base + f
  {
    NumberTwo(s, d, e, base);
    NumberNext(s + [d, e], f, base);
    assert s + [d, e] + [f] == s + [d, e, f];
  }

  lemma NumberFour(s: seq<nat>, d: nat, e: nat, f: nat, g: nat, base: nat)
    ensures Number(s + [d, e, f, g], base) == (((Number(s, base) * base + d) * base + e) * base + f) * base + g
  {
    NumberThree(s, d, e, f, base);
    NumberNext(s + [d, e, f], g, base);
    assert s + [d, e, f] + [g] == s + [d, e, f, g];
  }

  lemma OneByteNumber(n: nat, a: byte)
    ensures (n * 64 + S0(a)) * 64 + S1(a, 0) == (n * 256 + a) * 16
  {
    assert a == a / 4 * 4 + a % 4;
  }

  lemma TwoByteNumber(n: nat, a: byte, b: byte)
    ensures ((n * 64 + S0(a)) * 64 + S1(a, b)) * 64 + S2(b, 0) == ((n * 256 + a) * 256 + b) * 4
  {
    assert a == a / 4 * 4 + a % 4 && b == b / 16 * 16 + b % 16;
  }

  lemma ThreeByteNumber(n: nat, a: byte, b: byte, c: byte)
    ensures (((n * 64 + S0(a)) * 64 + S1(a, b)) * 64 + S2(b, c)) * 64 + S3(c) == ((n * 256 + a) * 256 + b) * 256 + c
  {
    assert a == a / 4 * 4 + a % 4 && b == b / 16 * 16 + b % 16 && c == c / 64 * 64 + c % 64;
  }

  // The digits in base 64 and the bytes in base 256 spell the same number, but for the zero
  // bits behind a short last group.
  lemma {:induction false} SameNumber(s: seq<byte>)
    ensures Number(Values(s), 64) == Number(s, 256) * (if |s| % 3 == 0 then 1 else if |s| % 3 == 1 then 16 else 4)
  {
    hide Values, Number, S0, S1, S2, S3;
    var n := |s| / 3 * 3;
    var p := s[..n];
    NoNumber();
    ValuesNone();
    if |s| % 3 == 1 {
      assert s == p + [s[n]];
      WholeNumber(p);
      ValuesTail1(p, s[n]);
      NumberTwo(Values(p), S0(s[n]), S1(s[n], 0), 64);
      NumberNext(p, s[n], 256);
      OneByteNumber(Number(p, 256), s[n]);
    } else if |s| % 3 == 2 {
      assert s == p + [s[n], s[n + 1]];
      WholeNumber(p);
      ValuesTail2(p, s[n], s[n + 1]);
      NumberThree(Values(p), S0(s[n]), S1(s[n], s[n + 1]), S2(s[n + 1], 0), 64);
      NumberTwo(p, s[n], s[n + 1], 256);
      TwoByteNumber(Number(p, 256), s[n], s[n + 1]);
    } else {
      WholeNumber(s);
    }
  }

  lemma {:induction false} WholeNumber(s: seq<byte>)
    requires |s| % 3 == 0
    ensures Number(Values(s), 64) == Number(s, 256)
  {
    hide Values, Number, S0, S1, S2, S3;
    NoNumber();
    ValuesNone();
    if s != [] {
      var n := |s| - 3;
      var p, a, b, c := s[..n], s[n], s[n + 1], s[n + 2];
      assert s == p + [a, b, c];
      WholeNumber(p);
      ValuesTail3(p, a, b, c);
      NumberFour(Values(p), S0(a), S1(a, b), S2(b, c), S3(c), 64);
      NumberThree(p, a, b, c, 256);
      ThreeByteNumber(Number(p, 256), a, b, c);
    }
  }

  lemma NoNumber()
    ensures Number([], 64) == 0 && Number([], 256) == 0
  {
  }

  lemma DropZero(vs: seq<sextet>, us: seq<sextet>, z: sextet)
    requires vs + [0] == us + [z]
    ensures vs == us && z == 0
  {
    assert (vs + [0])[|vs|] == 0;
    assert vs == (vs + [0])[..|vs|] == (us + [z])[..|us|] == us;
  }

  // Storing the value x by shifting and or-ing, in each of the four decoder states.
  lemma StoreFirst(p: seq<byte>, vs: seq<sextet>, x: sextet)
    requires |p| % 3 == 0 && Values(p) == vs
    ensures Values(p + [x * 4]) == vs + [x] + [0]
  {
    hide Values;
    ValuesTail1(p, x * 4);
  }

  lemma StoreSecond(p: seq<byte>, a: byte, vs: seq<sextet>, x: sextet)
    requires |p| % 3 == 0 && Values(p + [a]) == vs + [0]
    ensures Or(a, x / 16) < 256
    ensures Values(p + [Or(a, x / 16), x % 16 * 16]) == vs + [x] + [0]
  {
    hide Values, Or, S0, S1, S2, S3;
    ValuesTail1(p, a);
    assert Values(p) + [S0(a), S1(a, 0)] == Values(p) + [S0(a)] + [S1(a, 0)];
    DropZero(vs, Values(p) + [S0(a)], S1(a, 0));
    SecondBits(a, x);
    ValuesTail2(p, Or(a, x / 16), x % 16 * 16);
  }

  lemma SecondBits(a: byte, x: sextet)
    requires S1(a, 0) == 0
    ensures Or(a, x / 16) < 256
    ensures S0(Or(a, x / 16)) == S0(a) && S1(Or(a, x / 16), x % 16 * 16) == x && S2(x % 16 * 16, 0) == 0
  {
    hide Or;
    var h := a / 4;
    assert a == h * 4;
    Pow2Values();
    OrDisjoint(h, x / 16, 2);
  }

  lemma StoreThird(p: seq<byte>, a: byte, b: byte, vs: seq<sextet>, x: sextet)
    requires |p| % 3 == 0 && Values(p + [a, b]) == vs + [0]
    ensures Or(b, x / 4) < 256
    ensures Values(p + [a, Or(b, x / 4), x % 4 * 64]) == vs + [x] + [0]
  {
    hide Values, Or, S0, S1, S2, S3;
    ValuesTail2(p, a, b);
    assert Values(p) + [S0(a), S1(a, b), S2(b, 0)] == Values(p) + [S0(a), S1(a, b)] + [S2(b, 0)];
    DropZero(vs, Values(p) + [S0(a), S1(a, b)], S2(b, 0));
    ThirdBits(a, b, x);
    ValuesTail3(p, a, Or(b, x / 4), x % 4 * 64);
  }

  lemma ThirdBits(a: byte, b: byte, x: sextet)
    requires S2(b, 0) == 0
    ensures Or(b, x / 4) < 256
    ensures S1(a, Or(b, x / 4)) == S1(a, b) && S2(Or(b, x / 4), x % 4 * 64) == x && S3(x % 4 * 64) == 0
  {
    hide Or;
    var h := b / 16;
    assert b == h * 16;
    Pow2Values();
    OrDisjoint(h, x / 4, 4);
  }

  lemma StoreFourth(p: seq<byte>, a: byte, b: byte, c: byte, vs: seq<sextet>, x: sextet)
    requires |p| % 3 == 0 && Values(p + [a, b, c]) == vs + [0]
    ensures Or(c, x) < 256
    ensures Values(p + [a, b, Or(c, x)]) == vs + [x]
  {
    hide Values, Or, S0, S1, S2, S3;
    ValuesTail3(p, a, b, c);
    assert Values(p) + [S0(a), S1(a, b), S2(b, c), S3(c)] == Values(p) + [S0(a), S1(a, b), S2(b, c)] + [S3(c)];
    DropZero(vs, Values(p) + [S0(a), S1(a, b), S2(b, c)], S3(c));
    FourthBits(b, c, x);
    ValuesTail3(p, a, b, Or(c, x));
  }

  // The same for the third and the fourth digit, for the bytes in one piece.
  lemma ThirdDigit(s: seq<byte>, ti: nat, vs: seq<sextet>, x: sextet)
    requires |s| == ti + 1 && ti % 3 == 1 && Values(s) == vs + [0]
    ensures Or(s[ti], x / 4) < 256
    ensures Values(s[..ti] + [Or(s[ti], x / 4), x % 4 * 64]) == vs + [x] + [0]
  {
    hide Values, Or;
    hide S0, S1, S2, S3;
    var p, a, b := s[..ti - 1], s[ti - 1], s[ti];
    WholeGroups(ti);
    assert s == p + [a, b];
    StoreThird(p, a, b, vs, x);
    LastByTwo(s, ti, Or(b, x / 4), x % 4 * 64);
  }

  lemma WholeGroups(ti: nat)
    requires ti % 3 == 1
    ensures ti >= 1 && (ti - 1) % 3 == 0
  {
  }

  lemma LastByTwo(s: seq<byte>, ti: nat, h: byte, l: byte)
    requires |s| == ti + 1 && ti >= 1
    ensures s[..ti] + [h, l] == s[..ti - 1] + [s[ti - 1], h, l]
  {
  }

  lemma FourthDigit(s: seq<byte>, ti: nat, vs: seq<sextet>, x: sextet)
    requires |s| == ti + 1 && ti % 3 == 2 && Values(s) == vs + [0]
    ensures Or(s[ti], x) < 256
    ensures Values(s[..ti] + [Or(s[ti], x)]) == vs + [x]
  {
    hide Values, Or;
    var p, a, b, c := s[..ti - 2], s[ti - 2], s[ti - 1], s[ti];
    assert s == p + [a, b, c];
    StoreFourth(p, a, b, c, vs, x);
    assert s[..ti] + [Or(c, x)] == p + [a, b, Or(c, x)];
  }

  lemma FourthBits(b: byte, c: byte, x: sextet)
    requires S3(c) == 0
    ensures Or(c, x) < 256 && S2(b, Or(c, x)) == S2(b, c) && S3(Or(c, x)) == x
  {
    hide Or;
    var h := c / 64;
    assert c == h * 64;
    Pow2Values();
    OrDisjoint(h, x, 6);
  }

  lemma FourParts(q: nat, k: nat)
    requires k < 4
    ensures (4 * q + k) / 4 == q && (4 * q + k) % 4 == k
  {
  }

  lemma ThreeParts(q: nat, k: nat)
    requires k < 3
    ensures (3 * q + k) / 3 == q && (3 * q + k) % 3 == k
  {
  }

  lemma BytesAt(q: nat, k: nat)
    requires k < 4
    ensures Bytes(4 * q + k) == 3 * q + (if k == 0 then 0 else k - 1)
  {
    FourParts(q, k);
  }

  lemma NextDigit(n: nat)
    ensures (n + 1) % 4 == if n % 4 == 3 then 0 else n % 4 + 1
    ensures Bytes(n + 1) == Bytes(n) + (if n % 4 == 0 then 0 else 1)
    ensures Bytes(n) % 3 == if n % 4 == 0 then 0 else n % 4 - 1
  {
    hide Bytes;
    var q, k := n / 4, n % 4;
    BytesAt(q, k);
    ThreeParts(q, if k == 0 then 0 else k - 1);
    if k == 3 {
      FourParts(q + 1, 0);
      BytesAt(q + 1, 0);
    } else {
      FourParts(q, k + 1);
      BytesAt(q, k + 1);
    }
  }

  lemma RoomAt(a: nat, j: nat)
    requires j < 3
    ensures Room(3 * a + j) == 3 * a + (if j == 0 then 0 else j + 1)
  {
    ThreeParts(a, j);
  }

  lemma RoomNeeded(q: nat, k: nat, m: nat)
    requires k < 3 && DigitCount(m) >= 4 * q + k + 1
    ensures Room(m) > 3 * q + k
  {
    hide DigitCount, Room;
    var a, j := m / 3, m % 3;
    DigitCountAt(a, j);
    RoomAt(a, j);
  }

  lemma NoRoom(n: nat, size: nat)
    requires n % 4 != 3 && size <= Bytes(n) + (if n % 4 == 0 then 0 else 1)
    ensures Overflows(n + 1, size)
  {
    hide DigitCount, Room, Bytes;
    var q, k := n / 4, n % 4;
    BytesAt(q, k);
    forall m: nat | DigitCount(m) >= n + 1 ensures Room(m) > size {
      RoomNeeded(q, k, m);
    }
  }

  lemma HeldMidGroup(target: array<byte>, size: nat, vs: seq<sextet>)
    requires size <= target.Length && Holds(target, size, vs) && |vs| % 4 >= 2
    ensures Bytes(|vs|) < size && Values(target[..Bytes(|vs|) + 1]) == vs + [0]
  {
    hide Values, Bytes;
  }

  lemma HoldsMidGroup(target: array<byte>, size: nat, vs: seq<sextet>)
    requires size <= target.Length && |vs| % 4 != 0 && Bytes(|vs|) < size
    requires Values(target[..Bytes(|vs|) + 1]) == vs + [0]
    ensures Holds(target, size, vs)
  {
    hide Values, Bytes;
  }

  lemma HoldsGroups(target: array<byte>, size: nat, vs: seq<sextet>)
    requires size <= target.Length && |vs| % 4 == 0 && Bytes(|vs|) <= size && Values(target[..Bytes(|vs|)]) == vs
    ensures Holds(target, size, vs)
  {
    hide Values, Bytes;
  }

  // The four cases of the switch in the decoder loop, for a real target.
  method CaseFirst(target: array<byte>, targsize: nat, ti: nat, x: sextet, ghost vs: seq<sextet>)
    returns (ok: bool)
    requires targsize <= target.Length && |vs| % 4 == 0 && ti == Bytes(|vs|)
    requires Holds(target, targsize, vs)
    modifies target
    ensures ok ==> Holds(target, targsize, vs + [x])
    ensures !ok ==> Overflows(|vs| + 1, targsize)
    ensures forall i :: targsize <= i < target.Length ==> target[i] == old(target[i])
  {
    NextDigit(|vs|);
    hide Values, Or, Bytes, Overflows;
    if ti >= targsize {
      NoRoom(|vs|, targsize);
      return false;
    }
    StoreFirst(target[..ti], vs, x);
    target[ti] := x * 4;
    assert target[..ti + 1] == target[..ti] + [x * 4];
    ok := true;
  }

  method CaseSecond(target: array<byte>, targsize: nat, ti: nat, x: sextet, ghost vs: seq<sextet>)
    returns (ok: bool)
    requires targsize <= target.Length && |vs| % 4 == 1 && ti == Bytes(|vs|)
    requires Holds(target, targsize, vs)
    modifies target
    ensures ok ==> Holds(target, targsize, vs + [x])
    ensures !ok ==> Overflows(|vs| + 1, targsize)
    ensures forall i :: targsize <= i < target.Length ==> target[i] == old(target[i])
  {
    NextDigit(|vs|);
    hide Values, Or, Bytes, Overflows;
    if ti + 1 >= targsize {
      NoRoom(|vs|, targsize);
      return false;
    }
    assert target[..ti + 1] == target[..ti] + [target[ti]];
    StoreSecond(target[..ti], target[ti], vs, x);
    target[ti] := Or(target[ti], x / 16);
    target[ti + 1] := x % 16 * 16;
    assert target[..ti + 2] == target[..ti] + [target[ti], target[ti + 1]];
    ok := true;
  }

  method CaseThird(target: array<byte>, targsize: nat, ti: nat, x: sextet, ghost vs: seq<sextet>)
    returns (ok: bool)
    requires targsize <= target.Length && |vs| % 4 == 2 && ti == Bytes(|vs|)
    requires Holds(target, targsize, vs)
    modifies target
    ensures ok ==> Holds(target, targsize, vs + [x])
    ensures !ok ==> Overflows(|vs| + 1, targsize)
    ensures forall i :: targsize <= i < target.Length ==> target[i] == old(target[i])
  {
    NextDigit(|vs|);
    hide Values, Or, Bytes, Overflows, Holds;
    if ti + 1 >= targsize {
      NoRoom(|vs|, targsize);
      return false;
    }
    HeldMidGroup(target, targsize, vs);
    ThirdDigit(target[..ti + 1], ti, vs, x);
    target[ti] := Or(target[ti], x / 4);
    target[ti + 1] := x % 4 * 64;
    assert target[..ti + 2] == old(target[..ti + 1])[..ti] + [target[ti], target[ti + 1]];
    HoldsMidGroup(target, targsize, vs + [x]);
    ok := true;
  }

  // Here the bounds test of the source cannot fire: the state before reserved the byte.
  method CaseFourth(target: array<byte>, targsize: nat, ti: nat, x: sextet, ghost vs: seq<sextet>)
    returns (ok: bool)
    requires targsize <= target.Length && |vs| % 4 == 3 && ti == Bytes(|vs|)
    requires Holds(target, targsize, vs)
    modifies target
    ensures ok ==> Holds(target, targsize, vs + [x])
    ensures !ok ==> Overflows(|vs| + 1, targsize)
    ensures forall i :: targsize <= i < target.Length ==> target[i] == old(target[i])
  {
    NextDigit(|vs|);
    hide Values, Or, Bytes, Overflows, Holds;
    HeldMidGroup(target, targsize, vs);
    FourthDigit(target[..ti + 1], ti, vs, x);
    target[ti] := Or(target[ti], x);
    assert target[..ti + 1] == old(target[..ti + 1])[..ti] + [target[ti]];
    HoldsGroups(target, targsize, vs + [x]);
    ok := true;
  }

  //////////////////////////////////////////////////////////////////////////////
  // b64_pton: the text
  //////////////////////////////////////////////////////////////////////////////

  // The padding that n digits call for.
  function Closing(n: nat): string
  {
    if n % 4 == 2 then "==" else if n % 4 == 3 then "=" else ""
  }

  // Digits in whole groups, with the padding they need.
  ghost predicate IsText(t: string, vs: seq<sextet>)
  {
    |vs| % 4 != 1 && t == Symbols(vs) + Closing(|vs|)
  }

  // The text is the encoding of some byte string for which the target has room.
  ghost predicate Decodes(t: string, size: nat)
  {
    exists b: seq<byte> :: Encode(b) == t && Room(|b|) <= size
  }

  lemma EncodeIsText(b: seq<byte>)
    ensures IsText(Encode(b), Values(b)) && |Values(b)| == DigitCount(|b|)
  {
    ValuesShape(b);
    DigitCountMod(|b|);
    hide Values;
  }

  lemma DigitCountMod(n: nat)
    ensures DigitCount(n) % 4 == if n % 3 == 0 then 0 else n % 3 + 1
  {
    hide DigitCount;
    var q, k := n / 3, n % 3;
    DigitCountAt(q, k);
    FourParts(q, if k == 0 then 0 else k + 1);
  }

  // Text that goes wrong after its digits is not an encoding.
  lemma NotText(vs: seq<sextet>, rest: string, us: seq<sextet>)
    requires Index(CharAt(rest, 0)) < 0
    requires |vs| % 4 == 1 || rest != Closing(|vs|)
    ensures !IsText(Symbols(vs) + rest, us)
  {
    if IsText(Symbols(vs) + rest, us) {
      SameDigits(us, vs, Closing(|us|), rest);
    }
  }

  lemma DigitsNeeded(b: seq<byte>, us: seq<sextet>, rest: string)
    requires Encode(b) == Symbols(us) + rest
    ensures |us| <= DigitCount(|b|)
  {
    ValuesShape(b);
    hide Values;
    CharAtDigits(us, rest, |Values(b)|);
    CharAtDigits(Values(b), Padding(|b|), |Values(b)|);
  }

  lemma TooLong(vs: seq<sextet>, rest: string, size: nat)
    requires Overflows(|vs|, size)
    ensures !Decodes(Symbols(vs) + rest, size)
  {
    hide Encode, DigitCount, Room;
    forall b: seq<byte> | Encode(b) == Symbols(vs) + rest ensures Room(|b|) > size {
      DigitsNeeded(b, vs, rest);
    }
  }

  lemma {:induction false} StripAppend(s: string, t: string)
    ensures Strip(s + t) == Strip(s) + Strip(t)
  {
    if t == "" {
      assert s + t == s;
    } else {
      StripAppend(s, t[..|t| - 1]);
      assert (s + t)[..|s + t| - 1] == s + t[..|t| - 1];
    }
  }

  lemma StripAt(s: string, i: nat)
    requires i < |s|
    ensures Strip(s[i..]) == (if IsSpace(s[i]) then "" else [s[i]]) + Strip(s[i + 1..])
  {
    hide Strip, IsSpace;
    assert s[i..] == [s[i]] + s[i + 1..];
    StripOne(s[i]);
    StripAppend([s[i]], s[i + 1..]);
  }

  // Whitespace is the space, tab, line feed, vertical tab, form feed and carriage return.
  lemma StrippedCharacters(s: string, c: char)
    ensures Strip("") == ""
    ensures Strip(s + [c]) == Strip(s) + (if c as int in {9, 10, 11, 12, 13, 32} then "" else [c])
  {
    assert (s + [c])[..|s|] == s;
  }

  lemma StripOne(c: char)
    ensures Strip([c]) == if IsSpace(c) then "" else [c]
  {
    assert Strip([c][..0]) == "";
  }

  // Moves past whitespace.
  method SkipSpaces(src: string, i: nat) returns (j: nat)
    requires i <= |src|
    ensures i <= j <= |src| && Strip(src[i..]) == Strip(src[j..])
    ensures j < |src| ==> !IsSpace(src[j]) && Strip(src[j..]) == [src[j]] + Strip(src[j + 1..])
    ensures j == |src| ==> Strip(src[j..]) == ""
  {
    hide Strip, IsSpace;
    j := i;
    while j < |src| && IsSpace(src[j])
      invariant i <= j <= |src| && Strip(src[i..]) == Strip(src[j..])
    {
      StripAt(src, j);
      j := j + 1;
    }
    if j < |src| {
      StripAt(src, j);
    } else {
      StripNone();
      assert src[j..] == "";
    }
  }

  lemma StripNone()
    ensures Strip("") == ""
  {
  }

  lemma TrailerEnds(state: nat, rest: string)
    requires state == 2 || state == 3
    ensures var t := (if state == 2 then "==" else "=") + rest;
      (state == 2 && t == "==") || (state == 3 && t == "=") <==> rest == ""
  {
    var pad := if state == 2 then "==" else "=";
    assert |pad + rest| == |pad| + |rest|;
    assert pad + "" == pad;
  }

  // What may follow the digits once a pad character has been seen.
  method Trailer(src: string, i: nat, state: nat) returns (ok: bool)
    requires i < |src| && src[i] == PAD && state < 4
    ensures ok <==> (state == 2 && Strip(src[i..]) == "==") || (state == 3 && Strip(src[i..]) == "=")
  {
    StripAt(src, i);
    hide Strip, IsSpace;
    if state == 0 || state == 1 {
      return false;
    }
    var j := i;
    if state == 2 {
      j := SkipSpaces(src, i + 1);
      assert CharAt(Strip(src[i..]), 1) == CharAt(Strip(src[j..]), 0);
      if j == |src| || src[j] != PAD {
        return false;
      }
    }
    ghost var rest := Strip(src[j + 1..]);
    assert Strip(src[i..]) == (if state == 2 then "==" else "=") + rest;
    TrailerEnds(state, rest);
    j := SkipSpaces(src, j + 1);
    ok := j == |src|;
  }

  //////////////////////////////////////////////////////////////////////////////
  // b64_pton
  //////////////////////////////////////////////////////////////////////////////

  // A last byte of zero adds nothing to the values before it.
  lemma TrimZero1(p: seq<byte>, a: byte, vs: seq<sextet>)
    requires |p| % 3 == 0 && Values(p + [a, 0]) == vs + [0]
    ensures Values(p + [a]) == vs
  {
    hide Values, S0, S1;
    ValuesTail1(p, a);
    ValuesTail2(p, a, 0);
    assert Values(p) + [S0(a), S1(a, 0), S2(0, 0)] == Values(p) + [S0(a), S1(a, 0)] + [S2(0, 0)];
    DropZero(vs, Values(p) + [S0(a), S1(a, 0)], S2(0, 0));
  }

  lemma TrimZero2(p: seq<byte>, a: byte, b: byte, vs: seq<sextet>)
    requires |p| % 3 == 0 && Values(p + [a, b, 0]) == vs + [0]
    ensures Values(p + [a, b]) == vs
  {
    hide Values, S0, S1, S2;
    ValuesTail2(p, a, b);
    ValuesTail3(p, a, b, 0);
    assert Values(p) + [S0(a), S1(a, b), S2(b, 0), S3(0)] == Values(p) + [S0(a), S1(a, b), S2(b, 0)] + [S3(0)];
    DropZero(vs, Values(p) + [S0(a), S1(a, b), S2(b, 0)], S3(0));
  }

  // Bits left over in the last byte mean that the digits are no encoding's.
  lemma StrayBits1(p: seq<byte>, a: byte, c: byte, vs: seq<sextet>, other: seq<byte>)
    requires |p| % 3 == 0 && c != 0 && Values(p + [a, c]) == vs + [0] && |vs| % 4 == 2
    ensures Values(other) != vs
  {
    ValuesShape(other);
    DigitCountMod(|other|);
    StrayDigit1(a, c);
    hide Values, S0, S1, S2, DigitCount;
    ValuesTail2(p, a, c);
    assert Values(p) + [S0(a), S1(a, c), S2(c, 0)] == Values(p) + [S0(a), S1(a, c)] + [S2(c, 0)];
    DropZero(vs, Values(p) + [S0(a), S1(a, c)], S2(c, 0));
    assert vs[|vs| - 1] == S1(a, c);
  }

  lemma StrayDigit1(a: byte, c: byte)
    ensures c != 0 && S2(c, 0) == 0 ==> S1(a, c) % 16 != 0
  {
  }

  lemma StrayDigit2(b: byte, c: byte)
    ensures c != 0 && S3(c) == 0 ==> S2(b, c) % 4 != 0
  {
  }

  lemma StrayBits2(p: seq<byte>, a: byte, b: byte, c: byte, vs: seq<sextet>, other: seq<byte>)
    requires |p| % 3 == 0 && c != 0 && Values(p + [a, b, c]) == vs + [0] && |vs| % 4 == 3
    ensures Values(other) != vs
  {
    ValuesShape(other);
    DigitCountMod(|other|);
    StrayDigit2(b, c);
    hide Values, S0, S1, S2, S3, DigitCount;
    ValuesTail3(p, a, b, c);
    assert Values(p) + [S0(a), S1(a, b), S2(b, c), S3(c)] == Values(p) + [S0(a), S1(a, b), S2(b, c)] + [S3(c)];
    DropZero(vs, Values(p) + [S0(a), S1(a, b), S2(b, c)], S3(c));
    assert vs[|vs| - 1] == S2(b, c);
  }

  // Mid-group, the byte after the complete ones decides: zero, and the complete bytes
  // alone have the values vs; anything else, and no byte string has.
  lemma LastOfTwo(t: seq<byte>, vs: seq<sextet>, other: seq<byte>)
    requires |t| >= 2 && |t| % 3 == 2 && Values(t) == vs + [0] && |vs| % 4 == 2
    ensures if t[|t| - 1] == 0 then Values(t[..|t| - 1]) == vs else Values(other) != vs
  {
    hide Values;
    var n := |t|;
    var p, a, c := t[..n - 2], t[n - 2], t[n - 1];
    assert t == p + [a, c] && t[..n - 1] == p + [a];
    if c == 0 { TrimZero1(p, a, vs); } else { StrayBits1(p, a, c, vs, other); }
  }

  lemma LastOfThree(t: seq<byte>, vs: seq<sextet>, other: seq<byte>)
    requires |t| >= 3 && |t| % 3 == 0 && Values(t) == vs + [0] && |vs| % 4 == 3
    ensures if t[|t| - 1] == 0 then Values(t[..|t| - 1]) == vs else Values(other) != vs
  {
    hide Values;
    var n := |t|;
    var p, a, b, c := t[..n - 3], t[n - 3], t[n - 2], t[n - 1];
    assert t == p + [a, b, c] && t[..n - 1] == p + [a, b];
    if c == 0 { TrimZero2(p, a, b, vs); } else { StrayBits2(p, a, b, c, vs, other); }
  }

  lemma LastByte(target: array<byte>, size: nat, vs: seq<sextet>, other: seq<byte>)
    requires size <= target.Length && Holds(target, size, vs) && |vs| % 4 >= 2
    ensures var ti := Bytes(|vs|);
            ti < size && if target[ti] == 0 then Values(target[..ti]) == vs else Values(other) != vs
  {
    hide *;
    HeldMidGroup(target, size, vs);
    NextDigit(|vs|);
    var ti: nat := Bytes(|vs|);
    var t := target[..ti + 1];
    assert t[..ti] == target[..ti];
    if |vs| % 4 == 2 {
      LastOfTwo(t, vs, other);
    } else {
      LastOfThree(t, vs, other);
    }
  }

  lemma Stored(b: seq<byte>, vs: seq<sextet>)
    requires Values(b) == vs && |b| == Bytes(|vs|) && |vs| % 4 != 1
    ensures Encode(b) == Symbols(vs) + Closing(|vs|)
    ensures Room(|b|) == if |vs| % 4 == 0 then |b| else |b| + 1
  {
    NextDigit(|vs|);
    hide Values, Bytes;
  }

  lemma NotStored(vs: seq<sextet>, size: nat)
    requires forall b: seq<byte> :: Values(b) != vs
    ensures !Decodes(Symbols(vs) + Closing(|vs|), size)
  {
    var text := Symbols(vs) + Closing(|vs|);
    forall b: seq<byte> ensures Encode(b) != text {
      assert Values(b) != vs;
      hide Values;
      if Encode(b) == text {
        SameDigits(Values(b), vs, Padding(|b|), Closing(|vs|));
      }
    }
  }

  // The verdict on a text in good form, for a real target.
  lemma Verdict(target: array<byte>, size: nat, vs: seq<sextet>)
    requires size <= target.Length && Holds(target, size, vs) && |vs| % 4 != 1
    ensures var ti := Bytes(|vs|);
            ti <= size && (|vs| % 4 >= 2 ==> ti < size) &&
            var text := Symbols(vs) + Closing(|vs|);
            if |vs| % 4 == 0 || target[ti] == 0
            then Encode(target[..ti]) == text && Room(ti) <= size && Decodes(text, size)
            else !Decodes(text, size)
  {
    hide Values, Bytes, Encode, Closing;
    var ti := Bytes(|vs|);
    if |vs| % 4 >= 2 {
      LastByte(target, size, vs, []);
    }
    if |vs| % 4 == 0 || target[ti] == 0 {
      Stored(target[..ti], vs);
    } else {
      forall b: seq<byte> ensures Values(b) != vs {
        LastByte(target, size, vs, b);
      }
      NotStored(vs, size);
    }
  }

  // The texts the decoder should accept.  For a real target: exactly the encodings that
  // fit.  For a null target, where stray bits go unnoticed: digits in whole groups with
  // the padding they call for.
  ghost predicate Accepts(stored: bool, t: string, size: nat)
  {
    if stored then Decodes(t, size) else exists vs :: IsText(t, vs)
  }

  // Text in bad form is refused, whatever the target.
  lemma BadText(stored: bool, vs: seq<sextet>, rest: string, size: nat)
    requires Index(CharAt(rest, 0)) < 0
    requires |vs| % 4 == 1 || rest != Closing(|vs|)
    ensures !Accepts(stored, Symbols(vs) + rest, size)
  {
    hide Encode, Index, Room;
    var t := Symbols(vs) + rest;
    forall us ensures !IsText(t, us) {
      NotText(vs, rest, us);
    }
    forall b: seq<byte> ensures Encode(b) != t {
      EncodeIsText(b);
    }
  }

  // One digit: the switch of the decoder loop.
  method Digit(target: array?<byte>, targsize: nat, state: nat, ti: nat, x: sextet, ghost vs: seq<sextet>)
    returns (ok: bool)
    requires target != null ==> targsize <= target.Length && Holds(target, targsize, vs)
    requires state == |vs| % 4 && ti == Bytes(|vs|)
    modifies target
    ensures target == null ==> ok
    ensures target != null && ok ==> Holds(target, targsize, vs + [x])
    ensures target != null && !ok ==> Overflows(|vs| + 1, targsize)
    ensures target != null ==> forall i :: targsize <= i < target.Length ==> target[i] == old(target[i])
  {
    hide Holds, Overflows, Bytes;
    ok := true;
    if target != null {
      match state
      case 0 => ok := CaseFirst(target, targsize, ti, x, vs);
      case 1 => ok := CaseSecond(target, targsize, ti, x, vs);
      case 2 => ok := CaseThird(target, targsize, ti, x, vs);
      case _ => ok := CaseFourth(target, targsize, ti, x, vs);
    }
  }

  lemma Consume(vs: seq<sextet>, x: sextet, rest: string)
    ensures Symbols(vs) + ([Symbol(x)] + rest) == Symbols(vs + [x]) + rest
  {
    SymbolsAppend(vs, [x]);
  }

  // The decoder's state after reading src up to i: the digits vs are stored.
  ghost predicate Reading(src: string, i: nat, target: array?<byte>, targsize: nat, state: nat, ti: nat, vs: seq<sextet>)
    requires target != null ==> targsize <= target.Length
    reads target
  {
    && i <= |src|
    && state == |vs| % 4
    && ti == Bytes(|vs|)
    && Strip(src) == Symbols(vs) + Strip(src[i..])
    && (target != null ==> Holds(target, targsize, vs))
  }

  // One pass of the decoder loop on a character that is not whitespace or padding.
  method NextChar(src: string, i: nat, target: array?<byte>, targsize: nat, state: nat, ti: nat, ghost vs: seq<sextet>)
    returns (ok: bool, state': nat, ti': nat, ghost vs': seq<sextet>)
    requires target != null ==> targsize <= target.Length
    requires i < |src| && src[i] != PAD && !IsSpace(src[i])
    requires Reading(src, i, target, targsize, state, ti, vs)
    modifies target
    ensures !ok ==> !Accepts(target != null, Strip(src), targsize)
    ensures ok ==> Reading(src, i + 1, target, targsize, state', ti', vs')
    ensures target != null ==> forall i :: targsize <= i < target.Length ==> target[i] == old(target[i])
  {
    StripAt(src, i);
    state', ti', vs' := state, ti, vs;
    hide Holds, Accepts, Decodes, Overflows, Bytes, Symbol, Symbols, Index, Strip;
    var pos := Index(src[i]);
    if pos < 0 {
      BadText(target != null, vs, Strip(src[i..]), targsize);
      return false, state, ti, vs;
    }
    ok := Digit(target, targsize, state, ti, pos, vs);
    Consume(vs, pos, Strip(src[i + 1..]));
    NextDigit(|vs|);
    vs' := vs + [pos];
    if ok {
      ti' := if state == 0 then ti else ti + 1;
      state' := if state == 3 then 0 else state + 1;
    } else {
      assert target != null;
      TooLong(vs', Strip(src[i + 1..]), targsize);
      assert !Accepts(true, Strip(src), targsize) by {
        RefusedIfStored(Strip(src), targsize);
      }
    }
  }

  lemma RefusedIfStored(t: string, size: nat)
    requires !Decodes(t, size)
    ensures !Accepts(true, t, size)
  {
  }

  lemma ReadingStart(src: string, target: array?<byte>, targsize: nat)
    requires target != null ==> targsize <= target.Length
    ensures Reading(src, 0, target, targsize, 0, 0, [])
  {
    assert src[0..] == src;
    assert target != null ==> Holds(target, targsize, []) && target[..0] == [];
  }

  lemma ReadingSpace(src: string, i: nat, target: array?<byte>, targsize: nat, state: nat, ti: nat, vs: seq<sextet>)
    requires target != null ==> targsize <= target.Length
    requires Reading(src, i, target, targsize, state, ti, vs) && i < |src| && IsSpace(src[i])
    ensures Reading(src, i + 1, target, targsize, state, ti, vs)
  {
    StripAt(src, i);
    hide Holds, Strip, Symbols, Bytes;
  }

  // The decoder loop: all digits up to the end of the text or its first pad character.
  method Digits(src: string, target: array?<byte>, targsize: nat)
    returns (ok: bool, i: nat, state: nat, ti: nat, ghost vs: seq<sextet>)
    requires target != null ==> targsize <= target.Length
    modifies target
    ensures !ok ==> !Accepts(target != null, Strip(src), targsize)
    ensures ok ==> Reading(src, i, target, targsize, state, ti, vs) && (i < |src| ==> src[i] == PAD)
    ensures target != null ==> forall i :: targsize <= i < target.Length ==> target[i] == old(target[i])
  {
    i, state, ti, vs := 0, 0, 0, [];
    ReadingStart(src, target, targsize);
    hide Reading, Accepts, Strip;
    while i < |src| && src[i] != PAD
      invariant i <= |src| && Reading(src, i, target, targsize, state, ti, vs)
      invariant target != null ==> forall i :: targsize <= i < target.Length ==> target[i] == old(target[i])
    {
      if !IsSpace(src[i]) {
        ok, state, ti, vs := NextChar(src, i, target, targsize, state, ti, vs);
        if !ok {
          return;
        }
      } else {
        ReadingSpace(src, i, target, targsize, state, ti, vs);
      }
      i := i + 1;
    }
    ok := true;
  }

  // Decodes the text of src, or fails with -1.
  method Pton(src: string, target: array?<byte>, targsize: nat) returns (r: int)
    requires '\0' !in src
    requires target != null ==> targsize <= target.Length
    modifies target
    ensures r >= 0 <==> Accepts(target != null, Strip(src), targsize)
    ensures target == null && r >= 0 ==> exists vs :: IsText(Strip(src), vs) && r == Bytes(|vs|)
    ensures target != null && r >= 0 ==> Room(r) <= targsize && Encode(target[..r]) == Strip(src)
    ensures target != null ==> forall i :: targsize <= i < target.Length ==> target[i] == old(target[i])
  {
    var ok, i, state, ti;
    ghost var vs;
    ok, i, state, ti, vs := Digits(src, target, targsize);
    if !ok {
      return -1;
    }
    ghost var rest := Strip(src[i..]);
    PadIsNoDigit();
    if i < |src| {
      StripAt(src, i);
      ok := Trailer(src, i, state);
    } else {
      ok := state == 0;
    }
    assert ok <==> |vs| % 4 != 1 && rest == Closing(|vs|);
    hide Strip, Symbols, Holds, Bytes, Room, Encode, Index, Decodes, Closing;
    if !ok {
      BadText(target != null, vs, rest, targsize);
      return -1;
    }
    assert IsText(Strip(src), vs);
    if target != null {
      Verdict(target, targsize, vs);
      if state != 0 && target[ti] != 0 {
        return -1;
      }
    }
    r := ti;
  }

  lemma PadIsNoDigit()
    ensures Index(PAD) < 0 && Index('\0') < 0 && !IsSpace(PAD)
  {
  }

  //////////////////////////////////////////////////////////////////////////////
  // Round trip
  //////////////////////////////////////////////////////////////////////////////

  lemma {:induction false} StripPlain(s: string)
    requires forall k :: 0 <= k < |s| ==> !IsSpace(s[k])
    ensures Strip(s) == s
  {
    if s != "" {
      StripPlain(s[..|s| - 1]);
    }
  }

  predicate IsPlain(c: char)
  {
    !IsSpace(c) && c != '\0'
  }

  lemma PlainSymbols(v: sextet)
    ensures IsPlain(Symbol(v)) && IsPlain(PAD)
  {
  }

  // An encoding has no whitespace and no NUL of its own.
  lemma EncodePlain(b: seq<byte>)
    ensures Strip(Encode(b)) == Encode(b) && '\0' !in Encode(b)
  {
    hide Values, Symbol, IsPlain;
    PlainSymbols(0);
    forall k | 0 <= k < |Encode(b)| ensures IsPlain(Encode(b)[k]) {
      if k < |Values(b)| {
        PlainSymbols(Values(b)[k]);
      }
    }
    PlainString(Encode(b));
  }

  lemma PlainString(s: string)
    requires forall k :: 0 <= k < |s| ==> IsPlain(s[k])
    ensures Strip(s) == s && '\0' !in s
  {
    StripPlain(s);
  }

  // The text of b, with whitespace put in anywhere, is accepted exactly when the target
  // has room for b, and b is the only byte string it can decode to.
  lemma RoundTrip(b: seq<byte>, text: string, size: nat)
    requires Strip(text) == Encode(b)
    ensures Accepts(true, Strip(text), size) <==> |b| + (if |b| % 3 == 0 then 0 else 1) <= size
    ensures forall c: seq<byte> :: Encode(c) == Strip(text) ==> c == b
  {
    assert Room(|b|) == |b| + (if |b| % 3 == 0 then 0 else 1);
    hide Encode, Room;
    forall c: seq<byte> | Encode(c) == Encode(b) ensures c == b {
      EncodeInjective(c, b);
    }
  }
}
