/** Metric names, label sets and the canonical series key.

    A string is a sequence of code points; byte order and code point order agree in UTF-8. */
module Labels {
  import opened Model
  import opened Seqs

  const NUL: char := '\0'

  type LabelSet = map<string, string>

  // ----- string order -----

  /** Go's `<` on strings. */
  predicate StringLess(a: string, b: string) {
    b != [] && (a == [] || a[0] < b[0] || (a[0] == b[0] && StringLess(a[1..], b[1..])))
  }

  lemma {:induction false} StringOrder(a: string, b: string)
    ensures StringLess(a, b) ==> !StringLess(b, a)
    ensures a != b ==> StringLess(a, b) || StringLess(b, a)
  {
    if a != [] && b != [] {
      StringOrder(a[1..], b[1..]);
      assert a == [a[0]] + a[1..] && b == [b[0]] + b[1..];
    }
  }

  lemma {:induction false} StringLessTransitive(a: string, b: string, c: string)
    requires StringLess(a, b) && StringLess(b, c)
    ensures StringLess(a, c)
  {
    if a != [] && a[0] == b[0] == c[0] {
      StringLessTransitive(a[1..], b[1..], c[1..]);
    }
  }

  /** The first character in which two strings differ decides, and a proper prefix comes first. */
  lemma {:induction false} FirstDifference(a: string, b: string, i: nat)
    requires i <= |a| && i <= |b| && a[..i] == b[..i] && (i < |a| && i < |b| ==> a[i] != b[i])
    ensures i < |a| && i < |b| ==> (StringLess(a, b) <==> (a[i] as int) < (b[i] as int))
    ensures i == |a| || i == |b| ==> (StringLess(a, b) <==> |a| < |b|)
    decreases i
  {
    if i > 0 {
      assert a[0] == a[..i][0] == b[..i][0] == b[0];
      assert a[1..][..i - 1] == a[..i][1..] == b[..i][1..] == b[1..][..i - 1];
      FirstDifference(a[1..], b[1..], i - 1);
    }
  }

  lemma StringOrderAsymmetric()
    ensures Asymmetric(StringLess)
  {
    forall a, b | StringLess(a, b) ensures !StringLess(b, a) { StringOrder(a, b); }
  }

  // ----- the canonical key -----

  ghost predicate SortedKeys(keys: seq<string>, labels: LabelSet) {
    AscendingBy(StringLess, keys) && forall k :: k in keys <==> k in labels
  }

  lemma SortedKeysUnique(a: seq<string>, b: seq<string>, labels: LabelSet)
    requires SortedKeys(a, labels) && SortedKeys(b, labels)
    ensures a == b
  {
    StringOrderAsymmetric();
    AscendingUnique(StringLess, a, b);
  }

  function Pair(k: string, v: string): string {
    k + "=" + v
  }

  /** The rendering after the name: each label behind a NUL. */
  function RenderPairs(keys: seq<string>, labels: LabelSet): string
    requires forall k :: k in keys ==> k in labels
  {
    if keys == [] then ""
    else [NUL] + Pair(keys[0], labels[keys[0]]) + RenderPairs(keys[1..], labels)
  }

  lemma {:induction false} RenderPairsSnoc(keys: seq<string>, k: string, labels: LabelSet)
    requires k in labels && forall x :: x in keys ==> x in labels
    ensures RenderPairs(keys + [k], labels) == RenderPairs(keys, labels) + [NUL] + Pair(k, labels[k])
  {
    if keys == [] {
      assert [k][1..] == [];
    } else {
      assert (keys + [k])[1..] == keys[1..] + [k];
      RenderPairsSnoc(keys[1..], k, labels);
    }
  }

  /** `s` is the key of this name and label set. */
  ghost predicate IsKey(s: string, name: string, labels: LabelSet) {
    exists keys :: SortedKeys(keys, labels) && s == name + RenderPairs(keys, labels)
  }

  lemma KeyWitness(s: string, name: string, labels: LabelSet) returns (keys: seq<string>)
    requires IsKey(s, name, labels)
    ensures SortedKeys(keys, labels) && s == name + RenderPairs(keys, labels)
  {
    keys :| SortedKeys(keys, labels) && s == name + RenderPairs(keys, labels);
  }

  /** The key is a function of the name and the label set: no iteration order shows in it. */
  lemma KeyUnique(s: string, t: string, name: string, labels: LabelSet)
    requires IsKey(s, name, labels) && IsKey(t, name, labels)
    ensures s == t
  {
    var a :| SortedKeys(a, labels) && s == name + RenderPairs(a, labels);
    var b :| SortedKeys(b, labels) && t == name + RenderPairs(b, labels);
    SortedKeysUnique(a, b, labels);
  }

  ghost function InsertKey(keys: seq<string>, k: string): seq<string> {
    if keys == [] || StringLess(k, keys[0]) then [k] + keys else [keys[0]] + InsertKey(keys[1..], k)
  }

  lemma {:induction false} InsertKeySorts(keys: seq<string>, k: string, x: string)
    requires AscendingBy(StringLess, keys) && k !in keys
    ensures AscendingBy(StringLess, InsertKey(keys, k))
    ensures x in InsertKey(keys, k) <==> x == k || x in keys
  {
    if keys == [] {
    } else if StringLess(k, keys[0]) {
      forall i | 0 < i < |keys| ensures StringLess(k, keys[i]) {
        StringLessTransitive(k, keys[0], keys[i]);
      }
    } else {
      StringOrder(k, keys[0]);
      InsertKeySorts(keys[1..], k, x);
      var rest := InsertKey(keys[1..], k);
      forall i | 0 <= i < |rest| ensures StringLess(keys[0], rest[i]) {
        InsertKeySorts(keys[1..], k, rest[i]);
        if rest[i] != k {
          var j :| 0 <= j < |keys[1..]| && keys[1..][j] == rest[i];
          assert keys[j + 1] == rest[i];
        }
      }
      assert keys == [keys[0]] + keys[1..];
    }
  }

  ghost function SortKeys(s: set<string>): seq<string> {
    if s == {} then [] else var k :| k in s; InsertKey(SortKeys(s - {k}), k)
  }

  lemma {:induction false} SortKeysSorts(s: set<string>)
    ensures AscendingBy(StringLess, SortKeys(s)) && forall x :: x in SortKeys(s) <==> x in s
  {
    if s != {} {
      var k :| k in s && SortKeys(s) == InsertKey(SortKeys(s - {k}), k);
      SortKeysSorts(s - {k});
      forall x ensures AscendingBy(StringLess, SortKeys(s)) && (x in SortKeys(s) <==> x in s) {
        InsertKeySorts(SortKeys(s - {k}), k, x);
      }
    }
  }

  /** The key of a name and a label set. */
  ghost function KeyOf(name: string, labels: LabelSet): (s: string)
    ensures IsKey(s, name, labels)
  {
    SortKeysSorts(labels.Keys);
    name + RenderPairs(SortKeys(labels.Keys), labels)
  }

  // ----- the parser -----

  predicate NulFree(s: string) {
    NUL !in s
  }

  function EqualsAt(s: string): (i: nat)
    ensures i <= |s|
  {
    if s == [] || s[0] == '=' then 0 else 1 + EqualsAt(s[1..])
  }

  lemma {:induction false} EqualsAfterKey(k: string, v: string)
    requires '=' !in k
    ensures EqualsAt(Pair(k, v)) == |k| && |k| < |Pair(k, v)|
    ensures Pair(k, v)[..|k|] == k && Pair(k, v)[|k| + 1..] == v
  {
    if k != [] {
      EqualsAfterKey(k[1..], v);
      assert Pair(k, v)[1..] == Pair(k[1..], v);
    }
  }

  function ParsePairs(pieces: seq<string>): LabelSet {
    if pieces == [] then map[]
    else
      var i := EqualsAt(pieces[0]);
      var v := if i < |pieces[0]| then pieces[0][i + 1..] else [];
      ParsePairs(pieces[1..])[pieces[0][..i] := v]
  }

  /** Recovers a name and a label set from a key: split at NULs, then each label at its first
      equals sign. */
  function ParseKey(s: string): (string, LabelSet) {
    var pieces := SplitFrom([], s, NUL);
    if pieces == [] then ([], map[]) else (pieces[0], ParsePairs(pieces[1..]))
  }

  /** Keys the separators cannot be confused with, and values free of NUL. */
  ghost predicate Unambiguous(name: string, labels: LabelSet) {
    && NulFree(name)
    && forall k :: k in labels ==> NulFree(k) && '=' !in k && NulFree(labels[k])
  }

  function Pairs(keys: seq<string>, labels: LabelSet): (pieces: seq<string>)
    requires forall k :: k in keys ==> k in labels
    ensures |pieces| == |keys|
  {
    seq(|keys|, i requires 0 <= i < |keys| => Pair(keys[i], labels[keys[i]]))
  }

  lemma {:induction false} SplitRendering(current: string, keys: seq<string>, labels: LabelSet)
    requires forall k :: k in keys ==> k in labels && NulFree(k) && NulFree(labels[k])
    ensures SplitFrom(current, RenderPairs(keys, labels), NUL)
         == (if keys == [] && current == [] then [] else [current] + Pairs(keys, labels))
    decreases |keys|
  {
    hide SplitFrom;
    if keys == [] {
      SplitEnd(current, NUL);
    } else {
      var pair := Pair(keys[0], labels[keys[0]]);
      var rest := RenderPairs(keys[1..], labels);
      assert RenderPairs(keys, labels) == [NUL] + (pair + rest);
      assert keys[0] in keys;
      SplitAt(current, pair + rest, NUL);
      SplitExtends([], pair, rest, NUL);
      assert [] + pair == pair;
      SplitRendering(pair, keys[1..], labels);
      assert Pairs(keys, labels) == [pair] + Pairs(keys[1..], labels);
    }
  }

  lemma RestrictSnoc(labels: LabelSet, k: string, rest: seq<string>)
    requires k in labels && forall x :: x in rest ==> x in labels
    ensures (map x | x in rest :: labels[x])[k := labels[k]] == map x | x in [k] + rest :: labels[x]
  {
  }

  lemma {:induction false} ParseRendered(keys: seq<string>, labels: LabelSet)
    requires AscendingBy(StringLess, keys) && forall k :: k in keys ==> k in labels && '=' !in k
    ensures ParsePairs(Pairs(keys, labels)) == map k | k in keys :: labels[k]
    decreases |keys|
  {
    hide StringLess, EqualsAt;
    if keys != [] {
      var k, rest := keys[0], keys[1..];
      assert k in keys;
      ParseRendered(rest, labels);
      EqualsAfterKey(k, labels[k]);
      assert Pairs(keys, labels)[0] == Pair(k, labels[k]);
      assert Pairs(keys, labels)[1..] == Pairs(rest, labels);
      RestrictSnoc(labels, k, rest);
      assert keys == [k] + rest;
    }
  }

  /** Parsing a key gives back what it was made from. */
  lemma ParseInverts(name: string, labels: LabelSet)
    requires Unambiguous(name, labels)
    ensures ParseKey(KeyOf(name, labels)) == (name, labels)
  {
    hide KeyOf, StringLess;
    var keys := KeyWitness(KeyOf(name, labels), name, labels);
    ParseRendering(name, keys, labels);
  }

  lemma ParseRendering(name: string, keys: seq<string>, labels: LabelSet)
    requires Unambiguous(name, labels) && SortedKeys(keys, labels)
    ensures ParseKey(name + RenderPairs(keys, labels)) == (name, labels)
  {
    hide StringLess, SplitFrom, ParsePairs, RenderPairs;
    SplitExtends([], name, RenderPairs(keys, labels), NUL);
    assert [] + name == name;
    SplitRendering(name, keys, labels);
    ParseRendered(keys, labels);
    assert labels == map k | k in keys :: labels[k];
    assert ([name] + Pairs(keys, labels))[1..] == Pairs(keys, labels);
    if keys == [] {
      assert labels == map[];
    }
  }

  lemma KeyInjective(n1: string, l1: LabelSet, n2: string, l2: LabelSet)
    requires Unambiguous(n1, l1) && Unambiguous(n2, l2)
    requires KeyOf(n1, l1) == KeyOf(n2, l2)
    ensures n1 == n2 && l1 == l2
  {
    ParseInverts(n1, l1);
    ParseInverts(n2, l2);
  }

  // ----- the guards -----

  predicate NameChar(c: char) {
    'a' <= c <= 'z' || 'A' <= c <= 'Z' || '0' <= c <= '9' || c == '_' || c == '.' || c == '-'
  }

  predicate KeyChar(c: char) {
    'a' <= c <= 'z' || 'A' <= c <= 'Z' || '0' <= c <= '9' || c == '_' || c == '.'
  }

  predicate IsName(name: string) {
    0 < |name| <= 128 && forall c :: c in name ==> NameChar(c)
  }

  predicate IsLabelKey(k: string) {
    0 < |k| <= 64 && forall c :: c in k ==> KeyChar(c)
  }

  /** Unicode's White_Space, which `strings.TrimSpace` strips. */
  predicate IsSpace(c: char) {
    var n := c as int;
    9 <= n <= 13 || n in {0x20, 0x85, 0xA0, 0x1680, 0x2028, 0x2029, 0x202F, 0x205F, 0x3000} || 0x2000 <= n <= 0x200A
  }

  function TrimLeft(s: string): string {
    if s == [] || !IsSpace(s[0]) then s else TrimLeft(s[1..])
  }

  function TrimRight(s: string): string {
    if s == [] || !IsSpace(s[|s| - 1]) then s else TrimRight(s[..|s| - 1])
  }

  function TrimSpace(s: string): string {
    TrimRight(TrimLeft(s))
  }

  /** What `SeriesOf` lets through to the index. */
  ghost predicate Sanitized(name: string, labels: LabelSet) {
    IsName(name) && forall k :: k in labels ==> IsLabelKey(k) && TrimSpace(labels[k]) == labels[k]
  }

  predicate Over(alphabet: set<char>, s: string) {
    forall c :: c in s ==> c in alphabet
  }

  ghost predicate ValuesOver(alphabet: set<char>, labels: LabelSet) {
    forall k :: k in labels ==> Over(alphabet, labels[k])
  }

  /** Text that cannot be taken for the start of another label: NUL, '=' and a letter of a label key
      do not all occur in it. */
  ghost predicate Quiet(s: string) {
    NUL !in s || '=' !in s || forall c :: c in s ==> !KeyChar(c)
  }

  /** Label keys of a rendering whose values are quiet. */
  ghost predicate QuietLabels(keys: seq<string>, labels: LabelSet) {
    forall k :: k in keys ==> k in labels && IsLabelKey(k) && Quiet(labels[k])
  }

  /** A label behind its NUL, and what follows it. */
  lemma Behind(k: string, rest: string, r: string)
    requires r == [NUL] + Pair(k, rest)
    ensures |r| > |k| + 1 && r[0] == NUL && r[1..] == Pair(k, rest) && r[|k| + 1] == '='
    ensures forall j :: 1 <= j <= |k| ==> r[j] == k[j - 1]
  {
  }

  lemma RenderFirst(keys: seq<string>, labels: LabelSet)
    requires keys != [] && QuietLabels(keys, labels)
    ensures (var r, k := RenderPairs(keys, labels), keys[0];
             && |r| > |k| + 1 && r[0] == NUL && r[|k| + 1] == '='
             && (forall j :: 1 <= j <= |k| ==> r[j] == k[j - 1])
             && r[1..] == Pair(k, labels[k] + RenderPairs(keys[1..], labels)))
    ensures IsLabelKey(keys[0]) && QuietLabels(keys[1..], labels) && Quiet(labels[keys[0]])
  {
    hide IsLabelKey, Quiet, Pair;
    assert keys[0] in keys;
    var k := keys[0];
    var r, rest := RenderPairs(keys, labels), labels[k] + RenderPairs(keys[1..], labels);
    JoinPair(k, labels[k], RenderPairs(keys[1..], labels));
    Behind(k, rest, r);
  }

  lemma JoinPair(k: string, v: string, rest: string)
    ensures [NUL] + Pair(k, v) + rest == [NUL] + Pair(k, v + rest)
  {
  }

  /** What stands before a label or the end, and itself begins like a label, reaches past its '='. */
  lemma ReachesEquals(u: string, rest: string, k: string)
    requires u != [] && (rest == [] || rest[0] == NUL)
    requires |u + rest| > |k| + 1 && forall j :: 1 <= j <= |k| + 1 ==> (u + rest)[j] != NUL
    ensures |u| > |k| + 1
  {
    if rest != [] { assert (u + rest)[|u|] == rest[0]; }
  }

  lemma BeginsLabel(u: string, rest: string, k: string)
    requires IsLabelKey(k) && |u| > |k| + 1
    requires (u + rest)[0] == NUL && (u + rest)[|k| + 1] == '='
    requires forall j :: 1 <= j <= |k| ==> (u + rest)[j] == k[j - 1]
    ensures !Quiet(u)
  {
    LabelKeyChars(k);
    assert u[0] == NUL && u[|k| + 1] == '=';
    assert u[1] == (u + rest)[1] == k[0];
  }

  lemma QuietTail(s: string, n: nat)
    requires Quiet(s) && n <= |s|
    ensures Quiet(s[n..])
  {
    forall c | c in s[n..] ensures c in s {}
  }

  /** Quiet text is not confused with the labels behind it. */
  lemma NotLonger(a: string, ka: seq<string>, la: LabelSet, b: string, kb: seq<string>, lb: LabelSet)
    requires QuietLabels(ka, la) && QuietLabels(kb, lb) && Quiet(b)
    requires a + RenderPairs(ka, la) == b + RenderPairs(kb, lb)
    ensures |b| <= |a|
  {
    hide RenderPairs, IsLabelKey, Quiet;
    if |a| < |b| {
      var ra, rb, n := RenderPairs(ka, la), RenderPairs(kb, lb), |a|;
      var u := b[n..];
      QuietTail(b, n);
      assert ra == (a + ra)[n..] == (b + rb)[n..] == u + rb;
      RenderNone(ka, la);
      RenderNone(kb, lb);
      RenderFirst(ka, la);
      LabelKeyChars(ka[0]);
      if kb != [] { RenderFirst(kb, lb); }
      ReachesEquals(u, rb, ka[0]);
      BeginsLabel(u, rb, ka[0]);
    }
  }

  lemma RenderNone(keys: seq<string>, labels: LabelSet)
    requires QuietLabels(keys, labels)
    ensures RenderPairs(keys, labels) == [] <==> keys == []
  {
  }

  lemma LabelKeyChars(k: string)
    requires IsLabelKey(k)
    ensures k != [] && '=' !in k && forall i :: 0 <= i < |k| ==> KeyChar(k[i]) && k[i] != NUL
  {
    forall i | 0 <= i < |k| ensures KeyChar(k[i]) { assert k[i] in k; }
  }

  lemma KeysEndAtEquals(a: string, x: string, b: string, y: string)
    requires '=' !in a && '=' !in b && Pair(a, x) == Pair(b, y)
    ensures a == b && x == y
  {
    EqualsAfterKey(a, x);
    EqualsAfterKey(b, y);
  }

  /** Quiet text and labels can be read back from their rendering. */
  lemma {:induction false} Cancel(a: string, ka: seq<string>, la: LabelSet, b: string, kb: seq<string>, lb: LabelSet)
    requires QuietLabels(ka, la) && QuietLabels(kb, lb) && Quiet(a) && Quiet(b)
    requires a + RenderPairs(ka, la) == b + RenderPairs(kb, lb)
    ensures a == b && ka == kb && forall k :: k in ka ==> la[k] == lb[k]
    decreases |ka|
  {
    hide RenderPairs, Quiet, IsLabelKey, Pair;
    NotLonger(a, ka, la, b, kb, lb);
    NotLonger(b, kb, lb, a, ka, la);
    var ra, rb := RenderPairs(ka, la), RenderPairs(kb, lb);
    assert a == (a + ra)[..|a|] && ra == (a + ra)[|a|..];
    RenderNone(ka, la);
    RenderNone(kb, lb);
    if ka != [] {
      RenderFirst(ka, la);
      RenderFirst(kb, lb);
      LabelKeyChars(ka[0]);
      LabelKeyChars(kb[0]);
      var x, y := la[ka[0]] + RenderPairs(ka[1..], la), lb[kb[0]] + RenderPairs(kb[1..], lb);
      KeysEndAtEquals(ka[0], x, kb[0], y);
      Cancel(la[ka[0]], ka[1..], la, lb[kb[0]], kb[1..], lb);
      assert ka == [ka[0]] + ka[1..] && kb == [kb[0]] + kb[1..];
    }
  }

  ghost predicate QuietValues(labels: LabelSet) {
    forall k :: k in labels ==> Quiet(labels[k])
  }

  lemma QuietInjective(n1: string, l1: LabelSet, n2: string, l2: LabelSet)
    requires Sanitized(n1, l1) && Sanitized(n2, l2) && QuietValues(l1) && QuietValues(l2)
    requires KeyOf(n1, l1) == KeyOf(n2, l2)
    ensures n1 == n2 && l1 == l2
  {
    hide KeyOf, StringLess, AscendingBy, Quiet, IsLabelKey, TrimSpace;
    var k1 := KeyWitness(KeyOf(n1, l1), n1, l1);
    var k2 := KeyWitness(KeyOf(n2, l2), n2, l2);
    NameQuiet(n1);
    NameQuiet(n2);
    Cancel(n1, k1, l1, n2, k2, l2);
    assert l1.Keys == l2.Keys;
  }

  lemma NameQuiet(name: string)
    requires IsName(name)
    ensures Quiet(name)
  {
    assert !NameChar(NUL);
  }

  /** For a key letter x: a label x with a value that spells another label, and the two labels. */
  function CollidingOne(x: char): LabelSet {
    map[[x] := [NUL, x, x, '=']]
  }

  function CollidingTwo(x: char): LabelSet {
    map[[x] := "", [x, x] := ""]
  }

  function CollidingKey(x: char): string {
    ['m', NUL, x, '=', NUL, x, x, '=']
  }

  lemma CollidingOneKey(x: char)
    requires KeyChar(x)
    ensures IsKey(CollidingKey(x), "m", CollidingOne(x)) && Sanitized("m", CollidingOne(x))
  {
    var l := CollidingOne(x);
    assert l.Keys == {[x]};
    assert SortedKeys([[x]], l);
    assert [[x]][1..] == [];
    assert RenderPairs([[x]], l) == [NUL, x, '=', NUL, x, x, '='];
    assert "m" + RenderPairs([[x]], l) == CollidingKey(x);
  }

  lemma CollidingTwoKey(x: char)
    requires KeyChar(x)
    ensures IsKey(CollidingKey(x), "m", CollidingTwo(x)) && Sanitized("m", CollidingTwo(x))
  {
    var l, keys := CollidingTwo(x), [[x], [x, x]];
    assert l.Keys == {[x], [x, x]};
    assert StringLess([x], [x, x]);
    assert SortedKeys(keys, l);
    assert keys[1..] == [[x, x]] && keys[1..][1..] == [];
    assert RenderPairs(keys[1..], l) == [NUL, x, x, '='];
    assert RenderPairs(keys, l) == [NUL, x, '=', NUL, x, x, '='];
    assert "m" + RenderPairs(keys, l) == CollidingKey(x);
  }

  /** Two label sets the guards accept and the key confuses. */
  lemma NulCollides(x: char)
    requires KeyChar(x)
    ensures Sanitized("m", CollidingOne(x)) && Sanitized("m", CollidingTwo(x))
    ensures CollidingOne(x) != CollidingTwo(x)
    ensures KeyOf("m", CollidingOne(x)) == KeyOf("m", CollidingTwo(x))
  {
    hide IsKey, Sanitized, KeyOf;
    CollidingOneKey(x);
    CollidingTwoKey(x);
    assert [x, x] in CollidingTwo(x).Keys && [x, x] !in CollidingOne(x).Keys;
    KeyUnique(CollidingKey(x), KeyOf("m", CollidingOne(x)), "m", CollidingOne(x));
    KeyUnique(CollidingKey(x), KeyOf("m", CollidingTwo(x)), "m", CollidingTwo(x));
  }

  /** Keys tell apart every two sanitized series with values over the alphabet. */
  ghost predicate KeysTellApart(alphabet: set<char>) {
    forall n1, l1, n2, l2 ::
      && Sanitized(n1, l1) && Sanitized(n2, l2)
      && ValuesOver(alphabet, l1) && ValuesOver(alphabet, l2)
      && KeyOf(n1, l1) == KeyOf(n2, l2)
      ==> n1 == n2 && l1 == l2
  }

  /** On sanitized names and label sets, with values over an alphabet, keys tell series apart exactly
      when the alphabet does not have all of NUL, '=' and some character of a label key. */
  lemma KeyInjectiveIff(alphabet: set<char>)
    ensures KeysTellApart(alphabet)
       <==> NUL !in alphabet || '=' !in alphabet || forall c :: c in alphabet ==> !KeyChar(c)
  {
    hide KeyOf, Sanitized, ValuesOver;
    if NUL in alphabet && '=' in alphabet && exists c :: c in alphabet && KeyChar(c) {
      var x :| x in alphabet && KeyChar(x);
      NulCollides(x);
      CollidingValues(alphabet, x);
    } else {
      forall n1, l1, n2, l2 |
        Sanitized(n1, l1) && Sanitized(n2, l2) && ValuesOver(alphabet, l1) && ValuesOver(alphabet, l2)
        && KeyOf(n1, l1) == KeyOf(n2, l2)
        ensures n1 == n2 && l1 == l2
      {
        OverQuiet(alphabet, l1);
        OverQuiet(alphabet, l2);
        QuietInjective(n1, l1, n2, l2);
      }
    }
  }

  lemma OverQuiet(alphabet: set<char>, labels: LabelSet)
    requires NUL !in alphabet || '=' !in alphabet || forall c :: c in alphabet ==> !KeyChar(c)
    requires ValuesOver(alphabet, labels)
    ensures QuietValues(labels)
  {
    hide KeyChar;
  }

  lemma CollidingValues(alphabet: set<char>, x: char)
    requires x in alphabet && '=' in alphabet && NUL in alphabet
    ensures ValuesOver(alphabet, CollidingOne(x)) && ValuesOver(alphabet, CollidingTwo(x))
  {
  }

  // ----- the loops -----

  /** `LabelsKey`: collects the keys in whatever order the map yields them, sorts, renders. */
  method LabelsKey(name: string, labels: LabelSet) returns (key: string)
    ensures IsKey(key, name, labels)
    ensures key == KeyOf(name, labels)
  {
    hide KeyOf, StringLess;
    var keys := CollectKeys(labels);
    var pairs := WritePairs(keys, labels);
    key := name + pairs;
    KeyUnique(key, KeyOf(name, labels), name, labels);
  }

  method CollectKeys(labels: LabelSet) returns (keys: seq<string>)
    ensures SortedKeys(keys, labels)
  {
    hide StringLess;
    keys := [];
    var rest := labels.Keys;
    while rest != {}
      invariant rest <= labels.Keys
      invariant AscendingBy(StringLess, keys)
      invariant forall k :: k in keys <==> k in labels.Keys && k !in rest
      decreases |rest|
    {
      var k :| k in rest;
      keys := InsertSorted(keys, k);
      rest := rest - {k};
    }
  }

  /** The builder's loop, after the name. */
  method WritePairs(keys: seq<string>, labels: LabelSet) returns (b: string)
    requires SortedKeys(keys, labels)
    ensures b == RenderPairs(keys, labels)
  {
    hide StringLess, AscendingBy;
    b := "";
    for i := 0 to |keys|
      invariant b == RenderPairs(keys[..i], labels)
    {
      assert keys[i] in keys;
      RenderPairsSnoc(keys[..i], keys[i], labels);
      assert keys[..i + 1] == keys[..i] + [keys[i]];
      b := b + [NUL];
      b := b + Pair(keys[i], labels[keys[i]]);
    }
    assert keys[..|keys|] == keys;
  }

  /** One insertion of the sort. */
  method InsertSorted(keys: seq<string>, k: string) returns (out: seq<string>)
    requires AscendingBy(StringLess, keys) && k !in keys
    ensures AscendingBy(StringLess, out) && forall x :: x in out <==> x == k || x in keys
  {
    var i := 0;
    while i < |keys| && StringLess(keys[i], k)
      invariant i <= |keys|
      invariant forall j :: 0 <= j < i ==> StringLess(keys[j], k)
    {
      i := i + 1;
    }
    out := keys[..i] + [k] + keys[i..];
    assert keys == keys[..i] + keys[i..];
    forall j | i <= j < |keys| ensures StringLess(k, keys[j]) {
      StringOrder(k, keys[i]);
      assert keys[i] in keys;
      if i < j { StringLessTransitive(k, keys[i], keys[j]); }
    }
  }

  /** `ValidName`. */
  method ValidName(name: string) returns (ok: bool)
    ensures ok == IsName(name)
    ensures ok <==>
            && 1 <= |name| <= 128
            && forall c :: c in name ==>
                             c in {'-', '.', '_'} || '0' <= c <= '9' || 'A' <= c <= 'Z' || 'a' <= c <= 'z'
  {
    if name == "" || |name| > 128 {
      return false;
    }
    for i := 0 to |name|
      invariant forall j :: 0 <= j < i ==> NameChar(name[j])
    {
      if !NameChar(name[i]) {
        assert name[i] in name;
        return false;
      }
    }
    ok := true;
  }

  method ValidLabelKey(k: string) returns (ok: bool)
    ensures ok == IsLabelKey(k)
    ensures ok <==>
            && 1 <= |k| <= 64
            && forall c :: c in k ==> c in {'.', '_'} || '0' <= c <= '9' || 'A' <= c <= 'Z' || 'a' <= c <= 'z'
  {
    if k == "" || |k| > 64 {
      return false;
    }
    for i := 0 to |k|
      invariant forall j :: 0 <= j < i ==> KeyChar(k[j])
    {
      if !KeyChar(k[i]) {
        assert k[i] in k;
        return false;
      }
    }
    ok := true;
  }

  /** `SanitizeLabels`: fails on any bad key, otherwise trims every value. */
  method SanitizeLabels(labels: LabelSet) returns (r: Result<LabelSet>)
    ensures r.Ok? <==> forall k :: k in labels ==> IsLabelKey(k)
    ensures r.Err? ==> r.error == InvalidLabel
    ensures r.Ok? ==> r.value == map k | k in labels :: TrimSpace(labels[k])
  {
    var out: LabelSet := map[];
    var rest := labels.Keys;
    while rest != {}
      invariant rest <= labels.Keys
      invariant forall k :: k in labels && k !in rest ==> IsLabelKey(k)
      invariant out == map k | k in labels && k !in rest :: TrimSpace(labels[k])
      decreases |rest|
    {
      var k :| k in rest;
      var ok := ValidLabelKey(k);
      if !ok {
        return Err(InvalidLabel);
      }
      out := out[k := TrimSpace(labels[k])];
      rest := rest - {k};
    }
    r := Ok(out);
  }

  lemma {:induction false} TrimRightStops(s: string)
    ensures TrimRight(s) == [] || !IsSpace(TrimRight(s)[|TrimRight(s)| - 1])
    ensures TrimRight(s) <= s
  {
    if s != [] && IsSpace(s[|s| - 1]) {
      TrimRightStops(s[..|s| - 1]);
    }
  }

  lemma {:induction false} TrimLeftStops(s: string)
    ensures TrimLeft(s) == [] || !IsSpace(TrimLeft(s)[0])
  {
    if s != [] && IsSpace(s[0]) {
      TrimLeftStops(s[1..]);
    }
  }

  lemma {:induction false} TrimRightDrops(s: string) returns (j: nat)
    ensures j <= |s| && TrimRight(s) == s[..j] && forall c :: c in s[j..] ==> IsSpace(c)
  {
    if s == [] || !IsSpace(s[|s| - 1]) {
      j := |s|;
    } else {
      j := TrimRightDrops(s[..|s| - 1]);
      assert s[j..] == s[..|s| - 1][j..] + [s[|s| - 1]];
      assert s[..|s| - 1][..j] == s[..j];
    }
  }

  lemma {:induction false} TrimLeftDrops(s: string) returns (i: nat)
    ensures i <= |s| && TrimLeft(s) == s[i..] && forall c :: c in s[..i] ==> IsSpace(c)
  {
    if s == [] || !IsSpace(s[0]) {
      i := 0;
    } else {
      i := TrimLeftDrops(s[1..]);
      assert s[1..][i..] == s[i + 1..] && s[..i + 1] == [s[0]] + s[1..][..i];
      i := i + 1;
    }
  }

  /** Trimming takes away white space at both ends, all of it, and nothing else. */
  lemma TrimsBothEnds(s: string) returns (i: nat, j: nat)
    ensures i <= j <= |s| && TrimSpace(s) == s[i..j]
    ensures forall c :: c in s[..i] || c in s[j..] ==> IsSpace(c)
    ensures i < j ==> !IsSpace(s[i]) && !IsSpace(s[j - 1])
  {
    i := TrimLeftDrops(s);
    var k := TrimRightDrops(s[i..]);
    j := i + k;
    TrimLeftStops(s);
    TrimRightStops(s[i..]);
    assert s[i..][..k] == s[i..j] && s[i..][k..] == s[j..];
  }

  /** The 25 characters Unicode counts as white space. */
  lemma SpacesAre(c: char)
    ensures IsSpace(c)
       <==> c as int in {0x09, 0x0A, 0x0B, 0x0C, 0x0D, 0x20, 0x85, 0xA0, 0x1680, 0x2028, 0x2029, 0x202F, 0x205F, 0x3000}
            || c as int in {0x2000, 0x2001, 0x2002, 0x2003, 0x2004, 0x2005, 0x2006, 0x2007, 0x2008, 0x2009, 0x200A}
  {
  }

  /** What `SanitizeLabels` returns satisfies the guard the index relies on. */
  lemma TrimIdempotent(s: string)
    ensures TrimSpace(TrimSpace(s)) == TrimSpace(s)
  {
    TrimLeftStops(s);
    TrimRightStops(TrimLeft(s));
  }
}
