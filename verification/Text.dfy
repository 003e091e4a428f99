/** The few string operations the client and the parameter parser rely on. */
module Text {
  /** White space, as Unicode defines it. */
  predicate IsSpace(c: char) {
    || '\t' <= c <= '\r' || c == ' ' || c == '\U{85}' || c == '\U{A0}' || c == '\U{1680}'
    || '\U{2000}' <= c <= '\U{200A}' || c == '\U{2028}' || c == '\U{2029}' || c == '\U{202F}'
    || c == '\U{205F}' || c == '\U{3000}'
  }

  function TrimLeft(s: string): string {
    if s != [] && IsSpace(s[0]) then TrimLeft(s[1..]) else s
  }

  function TrimRight(s: string): string {
    if s != [] && IsSpace(s[|s| - 1]) then TrimRight(s[..|s| - 1]) else s
  }

  function TrimSpace(s: string): string {
    TrimRight(TrimLeft(s))
  }

  /** No white space at either end. */
  predicate Trimmed(s: string) {
    s == [] || (!IsSpace(s[0]) && !IsSpace(s[|s| - 1]))
  }

  lemma {:induction false} TrimLeftTrims(s: string)
    ensures TrimLeft(s) == [] || !IsSpace(TrimLeft(s)[0])
    ensures forall c :: c in TrimLeft(s) ==> c in s
  {
    if s != [] && IsSpace(s[0]) {
      TrimLeftTrims(s[1..]);
    }
  }

  lemma {:induction false} TrimRightTrims(s: string)
    ensures TrimRight(s) == [] || !IsSpace(TrimRight(s)[|TrimRight(s)| - 1])
    ensures TrimRight(s) <= s
  {
    if s != [] && IsSpace(s[|s| - 1]) {
      TrimRightTrims(s[..|s| - 1]);
    }
  }

  /** Trimming leaves a trimmed string of characters it was given, and leaves alone one
      that is trimmed already. */
  lemma {:induction false} TrimSpaceTrims(s: string)
    ensures Trimmed(TrimSpace(s)) && forall c :: c in TrimSpace(s) ==> c in s
    ensures Trimmed(s) ==> TrimSpace(s) == s
  {
    TrimLeftTrims(s);
    TrimRightTrims(TrimLeft(s));
    var r := TrimSpace(s);
    assert forall i :: 0 <= i < |r| ==> r[i] == TrimLeft(s)[i];
  }

  function Digit(n: nat): char
    requires n < 10
  {
    "0123456789"[n]
  }

  function Decimal(n: nat): string {
    (if n < 10 then [] else Decimal(n / 10)) + [Digit(n % 10)]
  }

  // ---- numbers

  /** The number a string of decimal digits stands for. */
  function Number(s: string): int {
    if s == [] then 0 else 10 * Number(s[..|s| - 1]) + (s[|s| - 1] as int - '0' as int)
  }

  /** A number's digits are digits, and read back as the number. */
  lemma {:induction false} DecimalReadsBack(n: nat)
    ensures Number(Decimal(n)) == n
    ensures forall i :: 0 <= i < |Decimal(n)| ==> '0' <= Decimal(n)[i] <= '9'
  {
    var s := Decimal(n);
    assert Digit(n % 10) as int - '0' as int == n % 10;
    if n >= 10 {
      DecimalReadsBack(n / 10);
      assert s[..|s| - 1] == Decimal(n / 10);
    } else {
      assert s == [Digit(n)] && s[..0] == [];
    }
  }

  // ---- what trimming takes

  lemma {:induction false} TrimLeftCuts(s: string) returns (i: nat)
    ensures i <= |s| && TrimLeft(s) == s[i..] && forall m :: 0 <= m < i ==> IsSpace(s[m])
  {
    if s != [] && IsSpace(s[0]) {
      var j := TrimLeftCuts(s[1..]);
      i := j + 1;
    } else {
      i := 0;
    }
  }

  lemma {:induction false} TrimRightCuts(s: string) returns (j: nat)
    ensures j <= |s| && TrimRight(s) == s[..j] && forall m :: j <= m < |s| ==> IsSpace(s[m])
  {
    if s != [] && IsSpace(s[|s| - 1]) {
      j := TrimRightCuts(s[..|s| - 1]);
      assert s[..|s| - 1][..j] == s[..j];
    } else {
      j := |s|;
    }
  }

  /** Trimming takes white space off both ends and nothing else. */
  lemma {:induction false} TrimSpaceCuts(s: string) returns (i: nat, j: nat)
    ensures i <= j <= |s| && TrimSpace(s) == s[i..j] && Trimmed(TrimSpace(s))
    ensures forall m :: 0 <= m < i || j <= m < |s| ==> IsSpace(s[m])
  {
    TrimSpaceTrims(s);
    i := TrimLeftCuts(s);
    var n := TrimRightCuts(s[i..]);
    j := i + n;
    assert s[i..][..n] == s[i..j];
    forall m | j <= m < |s| ensures IsSpace(s[m]) {
      assert s[i..][m - i] == s[m];
    }
  }

  /** Anything but white space survives trimming. */
  lemma {:induction false} TrimSpaceKeeps(s: string, i: nat)
    requires i < |s| && !IsSpace(s[i])
    ensures TrimSpace(s) != ""
  {
    TrimLeftKeeps(s, i);
    var l := TrimLeft(s);
    var j :| 0 <= j < |l| && l[j] == s[i];
    TrimRightKeeps(l, j);
  }

  lemma {:induction false} TrimLeftKeeps(s: string, i: nat)
    requires i < |s| && !IsSpace(s[i])
    ensures s[i] in TrimLeft(s)
  {
    if IsSpace(s[0]) {
      TrimLeftKeeps(s[1..], i - 1);
    }
  }

  lemma {:induction false} TrimRightKeeps(s: string, i: nat)
    requires i < |s| && !IsSpace(s[i])
    ensures s[i] in TrimRight(s)
  {
    if IsSpace(s[|s| - 1]) {
      TrimRightKeeps(s[..|s| - 1], i);
    }
  }

  // ---- splitting and joining

  function Split(s: string, sep: char): (r: seq<string>)
    ensures r != []
  {
    if s == [] then [""]
    else
      var r := Split(s[1..], sep);
      if s[0] == sep then [""] + r else [[s[0]] + r[0]] + r[1..]
  }

  function Join(parts: seq<string>, sep: char): string {
    if parts == [] then ""
    else if |parts| == 1 then parts[0]
    else parts[0] + [sep] + Join(parts[1..], sep)
  }

  /** No piece contains the separator, or anything the string does not. */
  lemma {:induction false} SplitPieces(s: string, sep: char)
    ensures forall t, c :: t in Split(s, sep) && c in t ==> c in s && c != sep
  {
    if s != [] {
      SplitPieces(s[1..], sep);
      var r := Split(s[1..], sep);
      assert r == [r[0]] + r[1..];
      forall t, c | t in Split(s, sep) && c in t ensures c in s && c != sep {
        if t in r {
          assert c in s[1..];
        } else if s[0] != sep {
          assert t == [s[0]] + r[0];
          assert c == s[0] || c in r[0];
          assert r[0] in r;
        }
      }
    }
  }

  lemma {:induction false} SplitFirst(a: string, rest: string, sep: char)
    requires sep !in a
    ensures Split(a + [sep] + rest, sep) == [a] + Split(rest, sep)
  {
    var s := a + [sep] + rest;
    if a == [] {
      assert s[1..] == rest;
    } else {
      assert s[1..] == a[1..] + [sep] + rest;
      SplitFirst(a[1..], rest, sep);
      assert a == [a[0]] + a[1..];
    }
  }

  lemma {:induction false} SplitWhole(a: string, sep: char)
    requires sep !in a
    ensures Split(a, sep) == [a]
  {
    if a != [] {
      SplitWhole(a[1..], sep);
      assert a == [a[0]] + a[1..];
    }
  }

  /** Splitting undoes joining, when no part contains the separator. */
  lemma {:induction false} SplitJoin(parts: seq<string>, sep: char)
    requires parts != [] && forall i :: 0 <= i < |parts| ==> sep !in parts[i]
    ensures Split(Join(parts, sep), sep) == parts
  {
    if |parts| == 1 {
      SplitWhole(parts[0], sep);
    } else {
      SplitJoin(parts[1..], sep);
      SplitFirst(parts[0], Join(parts[1..], sep), sep);
    }
  }

  /** Joining the pieces again gives the string back. */
  lemma {:induction false} JoinSplit(s: string, sep: char)
    ensures Join(Split(s, sep), sep) == s
  {
    if s != [] {
      JoinSplit(s[1..], sep);
      var r := Split(s[1..], sep);
      if s[0] == sep {
        assert ([""] + r)[1..] == r;
      } else {
        JoinPrepended(s[0], r, sep);
      }
    }
  }

  lemma {:induction false} JoinPrepended(c: char, r: seq<string>, sep: char)
    requires r != []
    ensures Join([[c] + r[0]] + r[1..], sep) == [c] + Join(r, sep)
  {
    var t := [[c] + r[0]] + r[1..];
    assert t[1..] == r[1..];
  }

  // ---- lexicographic order

  /** Byte order on strings. */
  predicate NotAfter(a: string, b: string) {
    a == [] || (b != [] && (a[0] < b[0] || (a[0] == b[0] && NotAfter(a[1..], b[1..]))))
  }

  lemma {:induction false} NotAfterTotal(a: string, b: string)
    ensures NotAfter(a, b) || NotAfter(b, a)
    ensures NotAfter(a, b) && NotAfter(b, a) ==> a == b
  {
    if a != [] && b != [] {
      NotAfterTotal(a[1..], b[1..]);
      assert a == [a[0]] + a[1..] && b == [b[0]] + b[1..];
    }
  }

  lemma {:induction false} NotAfterTransitive(a: string, b: string, c: string)
    requires NotAfter(a, b) && NotAfter(b, c)
    ensures NotAfter(a, c)
  {
    if a != [] && a[0] == b[0] == c[0] {
      NotAfterTransitive(a[1..], b[1..], c[1..]);
    }
  }

  /** `a` and `b` first differ at `i`, where `a` has the lower character. */
  ghost predicate LowerAt(a: string, b: string, i: nat) {
    i < |a| && i < |b| && a[..i] == b[..i] && a[i] < b[i]
  }

  lemma {:induction false} LowerTails(a: string, b: string, i: nat)
    requires a != [] && b != [] && a[0] == b[0]
    ensures LowerAt(a, b, i + 1) <==> LowerAt(a[1..], b[1..], i)
  {
    if i + 1 <= |a| && i + 1 <= |b| {
      assert a[..i + 1] == [a[0]] + a[1..][..i] && b[..i + 1] == [b[0]] + b[1..][..i];
      assert a[..i + 1][1..] == a[1..][..i] && b[..i + 1][1..] == b[1..][..i];
    }
  }

  lemma {:induction false} LowerHeads(a: string, b: string, i: nat)
    requires LowerAt(a, b, i)
    ensures if i == 0 then a[0] < b[0] else a[0] == b[0]
  {
    assert i > 0 ==> a[..i][0] == b[..i][0];
  }

  /** A string comes first that begins the other, or that has the lower character at the
      first place where the two differ. */
  lemma {:induction false} NotAfterIs(a: string, b: string)
    ensures NotAfter(a, b) <==> (a <= b || exists i :: LowerAt(a, b, i))
  {
    hide LowerAt;
    if a != [] && b != [] {
      NotAfterIs(a[1..], b[1..]);
      assert a == [a[0]] + a[1..] && b == [b[0]] + b[1..];
      if i: nat :| LowerAt(a, b, i) {
        LowerHeads(a, b, i);
        if i > 0 {
          LowerTails(a, b, i - 1);
        }
      }
      if a[0] == b[0] {
        if i: nat :| LowerAt(a[1..], b[1..], i) {
          LowerTails(a, b, i);
        }
      } else if a[0] < b[0] {
        LowerFirst(a, b);
      }
    } else {
      assert forall i :: LowerAt(a, b, i) ==> a != [] && b != [] by {
        LowerNeedsBoth(a, b);
      }
    }
  }

  lemma {:induction false} LowerFirst(a: string, b: string)
    requires a != [] && b != [] && a[0] < b[0]
    ensures LowerAt(a, b, 0)
  {
  }

  lemma {:induction false} LowerNeedsBoth(a: string, b: string)
    ensures forall i :: LowerAt(a, b, i) ==> a != [] && b != []
  {
  }
}
