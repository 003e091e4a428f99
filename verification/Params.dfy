/** Policy parameters: parsing "k=v,k=v", and printing it back in one fixed form. */
module Params {
  import opened Base
  import opened Text
  import opened Sorting

  type Params = map<string, string>

  datatype Outcome = Parsed(params: Params) | NotKeyValue(token: string)

  /** A lower-casing of characters: doing it twice changes nothing more, and it makes
      neither a comma nor an equals sign of anything else. */
  ghost predicate Lowers(lower: char -> char) {
    && (forall c :: lower(lower(c)) == lower(c))
    && (forall c :: lower(c) == ',' || lower(c) == '=' ==> lower(c) == c)
  }

  function Lowered(lower: char -> char, s: string): (r: string)
    ensures |r| == |s| && forall i :: 0 <= i < |s| ==> r[i] == lower(s[i])
  {
    seq(|s|, i requires 0 <= i < |s| => lower(s[i]))
  }

  // ---- parsing

  /** What one trimmed token adds to the parameters read so far. */
  function Entered(lower: char -> char, p: Params, tok: string): Outcome {
    if tok == "" then Parsed(p)
    else
      var i := IndexOf(tok, '=');
      if i == |tok| then NotKeyValue(tok)
      else Parsed(p[TrimSpace(Lowered(lower, tok[..i])) := TrimSpace(tok[i + 1..])])
  }

  /** All of the tokens, stopping at the first that is no key and value. */
  function Folded(lower: char -> char, toks: seq<string>): Outcome {
    if toks == [] then Parsed(map[])
    else
      match Folded(lower, toks[..|toks| - 1])
      case NotKeyValue(t) => NotKeyValue(t)
      case Parsed(p) => Entered(lower, p, TrimSpace(toks[|toks| - 1]))
  }

  function Parse(lower: char -> char, s: string): Outcome {
    if TrimSpace(s) == "" then Parsed(map[]) else Folded(lower, Split(s, ','))
  }

  lemma {:induction false} FoldedStep(lower: char -> char, toks: seq<string>, i: nat)
    requires i < |toks|
    ensures Folded(lower, toks[..i + 1]) ==
            match Folded(lower, toks[..i])
            case NotKeyValue(t) => NotKeyValue(t)
            case Parsed(p) => Entered(lower, p, TrimSpace(toks[i]))
  {
    assert toks[..i + 1][..i] == toks[..i];
  }

  lemma {:induction false} FoldedStops(lower: char -> char, toks: seq<string>, i: nat)
    requires i <= |toks| && Folded(lower, toks[..i]).NotKeyValue?
    ensures Folded(lower, toks) == Folded(lower, toks[..i])
    decreases |toks| - i
  {
    if i < |toks| {
      FoldedStep(lower, toks, i);
      FoldedStops(lower, toks, i + 1);
    } else {
      assert toks[..i] == toks;
    }
  }

  method ParseParams(lower: char -> char, s: string) returns (r: Outcome)
    ensures r == Parse(lower, s)
  {
    var p: Params := map[];
    if TrimSpace(s) == "" {
      return Parsed(p);
    }
    var toks := Split(s, ',');
    for i := 0 to |toks|
      invariant Folded(lower, toks[..i]) == Parsed(p)
    {
      FoldedStep(lower, toks, i);
      var tok := TrimSpace(toks[i]);
      if tok == "" {
        continue;
      }
      var at := IndexOf(tok, '=');
      if at == |tok| {
        FoldedStops(lower, toks, i + 1);
        return NotKeyValue(tok);
      }
      p := p[TrimSpace(Lowered(lower, tok[..at])) := TrimSpace(tok[at + 1..])];
    }
    assert toks[..|toks|] == toks;
    return Parsed(p);
  }

  // ---- what parsing means, piece by piece

  /** Neither blank nor a key and value. */
  predicate Bad(t: string) {
    t != "" && '=' !in t
  }

  /** The first bad piece. */
  ghost predicate FirstBad(pieces: seq<string>, i: nat) {
    i < |pieces| && Bad(TrimSpace(pieces[i])) && forall j :: 0 <= j < i ==> !Bad(TrimSpace(pieces[j]))
  }

  /** `t` gives `k` the value `v`: what stands before its first equals sign, in lower case,
      and what stands after it, both trimmed. */
  ghost predicate Gives(lower: char -> char, t: string, k: string, v: string) {
    exists a: string, b: string :: t == a + ['='] + b && '=' !in a
                                   && k == TrimSpace(Lowered(lower, a)) && v == TrimSpace(b)
  }

  /** The piece at `i` gives `k` the value `v`, and no later piece gives it any. */
  ghost predicate LastGives(lower: char -> char, pieces: seq<string>, i: nat, k: string, v: string) {
    && i < |pieces| && Gives(lower, TrimSpace(pieces[i]), k, v)
    && forall j, u :: i < j < |pieces| ==> !Gives(lower, TrimSpace(pieces[j]), k, u)
  }

  lemma {:induction false} GivesOnce(lower: char -> char, t: string, k: string, v: string)
    ensures var i := IndexOf(t, '=');
            Gives(lower, t, k, v) <==>
              i < |t| && k == TrimSpace(Lowered(lower, t[..i])) && v == TrimSpace(t[i + 1..])
  {
    var i := IndexOf(t, '=');
    if i < |t| {
      assert t == t[..i] + ['='] + t[i + 1..] && '=' !in t[..i];
    }
    forall a: string, b: string | t == a + ['='] + b && '=' !in a ensures |a| == i && t[..i] == a && t[i + 1..] == b {
      assert t[|a|] == '=';
      assert forall j :: 0 <= j < |a| ==> t[j] == a[j];
    }
  }

  lemma {:induction false} EnteredMeans(lower: char -> char, p: Params, t: string, k: string, v: string)
    ensures Entered(lower, p, t) == NotKeyValue(t) <==> Bad(t)
    ensures Entered(lower, p, t).NotKeyValue? <==> Bad(t)
    ensures !Bad(t) ==>
              var r := Entered(lower, p, t).params;
              (k in r && r[k] == v)
              <==> Gives(lower, t, k, v) || (k in p && p[k] == v && forall u :: !Gives(lower, t, k, u))
  {
    var i := IndexOf(t, '=');
    assert '=' in t <==> i < |t|;
    forall u ensures Gives(lower, t, k, u) <==>
              i < |t| && k == TrimSpace(Lowered(lower, t[..i])) && u == TrimSpace(t[i + 1..])
    {
      GivesOnce(lower, t, k, u);
    }
    hide Gives, TrimSpace, Lowered;
    assert i < |t| ==> (Gives(lower, t, k, TrimSpace(t[i + 1..])) <==> k == TrimSpace(Lowered(lower, t[..i])));
  }

  lemma {:induction false} FoldedFails(lower: char -> char, toks: seq<string>, t: string)
    ensures Folded(lower, toks) == NotKeyValue(t) <==>
              exists i: nat :: FirstBad(toks, i) && t == TrimSpace(toks[i])
    ensures Folded(lower, toks).Parsed? <==> forall i :: 0 <= i < |toks| ==> !Bad(TrimSpace(toks[i]))
  {
    hide Bad, TrimSpace, Entered;
    if toks != [] {
      var last := |toks| - 1;
      var init := toks[..last];
      FoldedFails(lower, init, t);
      assert forall i :: 0 <= i < last ==> init[i] == toks[i];
      forall i: nat ensures FirstBad(toks, i) <==>
                FirstBad(init, i) || (i == last && Bad(TrimSpace(toks[last])) && Folded(lower, init).Parsed?)
      {
      }
      if Folded(lower, init).Parsed? {
        EnteredMeans(lower, Folded(lower, init).params, TrimSpace(toks[last]), "", "");
        assert FirstBad(toks, last) <==> Bad(TrimSpace(toks[last]));
      }
    }
  }

  lemma {:induction false} FoldedGives(lower: char -> char, toks: seq<string>, k: string, v: string)
    requires Folded(lower, toks).Parsed?
    ensures var p := Folded(lower, toks).params;
            (k in p && p[k] == v) <==> exists i :: LastGives(lower, toks, i, k, v)
  {
    hide Gives, TrimSpace, Entered;
    if toks != [] {
      var last := |toks| - 1;
      var init := toks[..last];
      FoldedGives(lower, init, k, v);
      EnteredMeans(lower, Folded(lower, init).params, TrimSpace(toks[last]), k, v);
      assert forall i :: 0 <= i < last ==> init[i] == toks[i];
      LastOfMore(lower, toks, k, v);
    }
  }

  lemma {:induction false} LastOfMore(lower: char -> char, toks: seq<string>, k: string, v: string)
    requires toks != []
    ensures var last := |toks| - 1;
            (exists i :: LastGives(lower, toks, i, k, v)) <==>
              || Gives(lower, TrimSpace(toks[last]), k, v)
              || ((forall u :: !Gives(lower, TrimSpace(toks[last]), k, u))
                  && exists i :: LastGives(lower, toks[..last], i, k, v))
  {
    hide Gives, TrimSpace;
    var last := |toks| - 1;
    var init := toks[..last];
    forall i: nat | i < last
      ensures LastGives(lower, toks, i, k, v) <==>
                LastGives(lower, init, i, k, v) && forall u :: !Gives(lower, TrimSpace(toks[last]), k, u)
    {
      assert forall j :: 0 <= j < last ==> init[j] == toks[j];
    }
    assert LastGives(lower, toks, last, k, v) <==> Gives(lower, TrimSpace(toks[last]), k, v);
  }

  /** A blank string is one blank piece. */
  lemma {:induction false} ParseIsFold(lower: char -> char, s: string)
    ensures Parse(lower, s) == Folded(lower, Split(s, ','))
  {
    if TrimSpace(s) == "" {
      var i, j := TrimSpaceCuts(s);
      assert forall m :: 0 <= m < |s| ==> IsSpace(s[m]);
      SplitWhole(s, ',');
      assert [s][..0] == [];
      assert Folded(lower, []) == Parsed(map[]);
    }
  }

  /** Parsing fails exactly at the first piece between commas that is neither blank nor
      holds an equals sign, and with that piece, trimmed. */
  lemma {:induction false} ParseFailsExactly(lower: char -> char, s: string, t: string)
    ensures Parse(lower, s) == NotKeyValue(t) <==>
              exists i: nat :: FirstBad(Split(s, ','), i) && t == TrimSpace(Split(s, ',')[i])
    ensures Parse(lower, s).Parsed? <==> forall t :: t in Split(s, ',') ==> !Bad(TrimSpace(t))
  {
    ParseIsFold(lower, s);
    FoldedFails(lower, Split(s, ','), t);
  }

  /** A parsed key has the value the last piece that gives it one gives it, and no key is
      there that none gives. */
  lemma {:induction false} ParseGivesExactly(lower: char -> char, s: string, k: string, v: string)
    requires Parse(lower, s).Parsed?
    ensures var p := Parse(lower, s).params;
            (k in p && p[k] == v) <==> exists i :: LastGives(lower, Split(s, ','), i, k, v)
  {
    ParseIsFold(lower, s);
    FoldedGives(lower, Split(s, ','), k, v);
  }

  // ---- printing

  function Pair(p: Params, k: string): string
    requires k in p
  {
    k + "=" + p[k]
  }

  function Pairs(p: Params, ks: seq<string>): (r: seq<string>)
    requires forall k :: k in ks ==> k in p
    ensures |r| == |ks| && forall i :: 0 <= i < |ks| ==> r[i] == Pair(p, ks[i])
  {
    seq(|ks|, i requires 0 <= i < |ks| => Pair(p, ks[i]))
  }

  /** `s` is `p` printed with its keys in order. */
  ghost predicate Prints(p: Params, ks: seq<string>, s: string) {
    && Sorted(NotAfter, ks) && multiset(ks) == multiset(p.Keys)
    && (forall k :: k in ks ==> k in p)
    && s == Join(Pairs(p, ks), ',')
  }

  lemma {:induction false} StringsAreOrdered()
    ensures TotalOrder(NotAfter)
  {
    forall a, b ensures (NotAfter(a, b) || NotAfter(b, a)) && (NotAfter(a, b) && NotAfter(b, a) ==> a == b) {
      NotAfterTotal(a, b);
    }
    forall a, b, c | NotAfter(a, b) && NotAfter(b, c) ensures NotAfter(a, c) {
      NotAfterTransitive(a, b, c);
    }
  }

  /** What is printed depends on the mapping alone: there is one printing of it. */
  lemma {:induction false} PrintingIsUnique(p: Params, ks: seq<string>, s: string, ls: seq<string>, t: string)
    requires Prints(p, ks, s) && Prints(p, ls, t)
    ensures s == t
  {
    StringsAreOrdered();
    SortedIsUnique(NotAfter, ks, ls);
  }

  lemma {:induction false} KeysAre(p: Params, ks: seq<string>)
    requires multiset(ks) == multiset(p.Keys)
    ensures forall k :: k in ks <==> k in p
  {
    forall k ensures k in ks <==> k in p {
      assert k in ks <==> k in multiset(ks);
      assert k in p <==> k in multiset(p.Keys);
    }
  }

  /** The keys, in whatever order the map gives them. */
  method KeysOf(p: Params) returns (keys: seq<string>)
    ensures multiset(keys) == multiset(p.Keys)
  {
    keys := [];
    var left := p.Keys;
    while left != {}
      invariant left <= p.Keys && multiset(keys) + multiset(left) == multiset(p.Keys)
      decreases |left|
    {
      var k :| k in left;
      keys := keys + [k];
      left := left - {k};
    }
  }

  method PrintSorted(p: Params) returns (s: string, ghost ks: seq<string>)
    ensures Prints(p, ks, s)
  {
    hide TotalOrder, NotAfter, Sorted, Join;
    StringsAreOrdered();
    var keys := KeysOf(p);
    keys := Sort(NotAfter, keys);
    KeysAre(p, keys);
    var parts := new string[|keys|];
    for i := 0 to |keys|
      invariant forall j :: 0 <= j < i ==> parts[j] == Pair(p, keys[j])
    {
      parts[i] := keys[i] + "=" + p[keys[i]];
    }
    assert parts[..] == Pairs(p, keys);
    return Join(parts[..], ','), keys;
  }

  // ---- round trip

  ghost predicate CleanKey(lower: char -> char, k: string) {
    Trimmed(k) && forall i :: 0 <= i < |k| ==> k[i] != ',' && k[i] != '=' && lower(k[i]) == k[i]
  }

  ghost predicate CleanValue(v: string) {
    Trimmed(v) && ',' !in v
  }

  /** What parameters look like once parsed. */
  ghost predicate Clean(lower: char -> char, p: Params) {
    forall k :: k in p ==> CleanKey(lower, k) && CleanValue(p[k])
  }

  lemma {:induction false} KeyIsClean(lower: char -> char, s: string)
    requires Lowers(lower) && ',' !in s && '=' !in s
    ensures CleanKey(lower, TrimSpace(Lowered(lower, s)))
  {
    var l := Lowered(lower, s);
    TrimSpaceTrims(l);
    var k := TrimSpace(l);
    forall i | 0 <= i < |k| ensures k[i] != ',' && k[i] != '=' && lower(k[i]) == k[i] {
      assert k[i] in l;
      var j :| 0 <= j < |l| && l[j] == k[i];
      assert s[j] in s;
    }
  }

  lemma {:induction false} EnteredIsClean(lower: char -> char, p: Params, tok: string)
    requires Lowers(lower) && Clean(lower, p) && ',' !in tok && Entered(lower, p, tok).Parsed?
    ensures Clean(lower, Entered(lower, p, tok).params)
  {
    var i := IndexOf(tok, '=');
    if tok != "" && i < |tok| {
      KeyIsClean(lower, tok[..i]);
      TrimSpaceTrims(tok[i + 1..]);
    }
  }

  lemma {:induction false} FoldedIsClean(lower: char -> char, toks: seq<string>)
    requires Lowers(lower) && Folded(lower, toks).Parsed?
    requires forall t :: t in toks ==> ',' !in t
    ensures Clean(lower, Folded(lower, toks).params)
  {
    if toks != [] {
      var last := |toks| - 1;
      FoldedIsClean(lower, toks[..last]);
      TrimSpaceTrims(toks[last]);
      EnteredIsClean(lower, Folded(lower, toks[..last]).params, TrimSpace(toks[last]));
    }
  }

  lemma {:induction false} ParsedIsClean(lower: char -> char, s: string)
    requires Lowers(lower) && Parse(lower, s).Parsed?
    ensures Clean(lower, Parse(lower, s).params)
  {
    SplitPieces(s, ',');
    if TrimSpace(s) != "" {
      FoldedIsClean(lower, Split(s, ','));
    }
  }

  lemma {:induction false} PairReads(lower: char -> char, p: Params, q: Params, k: string)
    requires Clean(lower, p) && k in p
    ensures ',' !in Pair(p, k) && Entered(lower, q, TrimSpace(Pair(p, k))) == Parsed(q[k := p[k]])
  {
    var t, v := Pair(p, k), p[k];
    assert t == k + (['='] + v);
    assert CleanKey(lower, k) && CleanValue(v);
    assert t[|k|] == '=' && forall i :: 0 <= i < |k| ==> t[i] == k[i];
    assert Trimmed(t);
    TrimSpaceTrims(t);
    assert IndexOf(t, '=') == |k|;
    assert t[..|k|] == k && t[|k| + 1..] == v;
    assert Lowered(lower, k) == k;
    TrimSpaceTrims(k);
    TrimSpaceTrims(v);
  }

  lemma {:induction false} PairsRead(lower: char -> char, p: Params, ks: seq<string>)
    requires Clean(lower, p) && forall k :: k in ks ==> k in p
    ensures Folded(lower, Pairs(p, ks)) == Parsed(map k | k in ks :: p[k])
  {
    if ks != [] {
      var last := |ks| - 1;
      hide Clean, Entered, Pair;
      PairsRead(lower, p, ks[..last]);
      assert Pairs(p, ks)[..last] == Pairs(p, ks[..last]);
      PairReads(lower, p, map k | k in ks[..last] :: p[k], ks[last]);
      OneMorePair(p, ks);
    }
  }

  lemma {:induction false} OneMorePair(p: Params, ks: seq<string>)
    requires ks != [] && forall k :: k in ks ==> k in p
    ensures var last := |ks| - 1;
            (map k | k in ks[..last] :: p[k])[ks[last] := p[ks[last]]] == map k | k in ks :: p[k]
  {
    var last := |ks| - 1;
    assert ks == ks[..last] + [ks[last]];
  }

  /** Parsing undoes printing, for clean parameters. */
  lemma {:induction false} PrintedParses(lower: char -> char, p: Params, ks: seq<string>, s: string)
    requires Clean(lower, p) && Prints(p, ks, s)
    ensures Parse(lower, s) == Parsed(p)
  {
    KeysAre(p, ks);
    assert (map k | k in ks :: p[k]) == p;
    if ks != [] {
      var parts := Pairs(p, ks);
      forall i | 0 <= i < |parts| ensures ',' !in parts[i] {
        PairReads(lower, p, p, ks[i]);
      }
      SplitJoin(parts, ',');
      PairsRead(lower, p, ks);
      JoinStarts(parts, |ks[0]|);
      TrimSpaceKeeps(s, |ks[0]|);
    }
  }

  lemma {:induction false} JoinStarts(parts: seq<string>, i: nat)
    requires parts != [] && i < |parts[0]|
    ensures i < |Join(parts, ',')| && Join(parts, ',')[i] == parts[0][i]
  {
  }

  /** What is printed, cut at its commas, is each key in order, an equals sign and its value. */
  lemma {:induction false} PrintedPieces(lower: char -> char, p: Params, ks: seq<string>, s: string)
    requires Clean(lower, p) && Prints(p, ks, s) && ks != []
    ensures var pieces := Split(s, ',');
            |pieces| == |ks| && forall i :: 0 <= i < |ks| ==> ks[i] in p && pieces[i] == ks[i] + ['='] + p[ks[i]]
  {
    KeysAre(p, ks);
    var parts := Pairs(p, ks);
    forall i | 0 <= i < |parts| ensures ',' !in parts[i] && parts[i] == ks[i] + ['='] + p[ks[i]] {
      PairReads(lower, p, p, ks[i]);
    }
    SplitJoin(parts, ',');
  }

  /** Round trip: whatever parameters a string parses to, printing them and parsing that
      gives the same parameters back. */
  lemma {:induction false} ParsePrintParse(lower: char -> char, s: string, ks: seq<string>, t: string)
    requires Lowers(lower) && Parse(lower, s).Parsed? && Prints(Parse(lower, s).params, ks, t)
    ensures Parse(lower, t) == Parse(lower, s)
  {
    ParsedIsClean(lower, s);
    PrintedParses(lower, Parse(lower, s).params, ks, t);
  }

  /** ASCII lower case is a lower-casing. */
  function Ascii(c: char): char {
    if 'A' <= c <= 'Z' then c - 'A' + 'a' else c
  }

  lemma {:induction false} AsciiLowers()
    ensures Lowers(Ascii)
  {
  }
}
