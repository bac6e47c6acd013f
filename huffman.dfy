/**
 * The Huffman encoder: character frequencies are counted, a code tree is
 * built by repeatedly merging the two least frequent trees of a priority
 * queue, the root-to-leaf paths ('0' left, '1' right) become the cipher, and
 * the text is encoded as the concatenation of its characters' codes. Decoding
 * inverts the cipher and repeatedly reads the shortest prefix that is a code.
 *
 * Texts and codes are sequences of characters; a code is a sequence of '0'
 * and '1'.
 */
module Huffman {
  import opened Common

  /** A Huffman tree node. Internal nodes always have both children, so isLeaf() is exactly the Leaf case. */
  datatype Tree = Leaf(character: char, frequency: int) | Internal(left: Tree, right: Tree, frequency: int)

  /** The leaf characters, left to right. */
  function Leaves(t: Tree): seq<char>
  {
    match t
    case Leaf(c, _) => [c]
    case Internal(l, r, _) => Leaves(l) + Leaves(r)
  }

  /** Each internal node's frequency is the sum of its children's. */
  predicate WellFormed(t: Tree)
  {
    match t
    case Leaf(_, _) => true
    case Internal(l, r, f) => f == l.frequency + r.frequency && WellFormed(l) && WellFormed(r)
  }

  /** Each leaf carries the number of occurrences of its character in text. */
  predicate CountsMatch(t: Tree, text: seq<char>)
  {
    match t
    case Leaf(c, f) => f == multiset(text)[c]
    case Internal(l, r, _) => CountsMatch(l, text) && CountsMatch(r, text)
  }

  predicate Distinct(s: seq<char>)
  {
    forall i, j :: 0 <= i < j < |s| ==> s[i] != s[j]
  }

  /** The distinct characters of s. */
  function CharsOf(s: seq<char>): (r: set<char>)
    ensures forall c :: c in r <==> c in s
    ensures r == {} <==> s == []
  {
    if s == [] then {} else {s[0]} + CharsOf(s[1..])
  }

  /** What buildTree promises about the tree it builds for a non-empty text. */
  predicate BuiltFrom(t: Tree, text: seq<char>)
  {
    WellFormed(t) && CountsMatch(t, text) && Distinct(Leaves(t)) &&
    (forall c :: c in Leaves(t) <==> c in text) && t.frequency == |text|
  }

  /** s with every occurrence of c removed. */
  function Without(s: seq<char>, c: char): (r: seq<char>)
    ensures |r| == |s| - multiset(s)[c]
    ensures forall d :: d in r <==> d in s && d != c
    ensures forall d :: d != c ==> multiset(r)[d] == multiset(s)[d]
  {
    if s == [] then []
    else
      assert s == [s[0]] + s[1..];
      if s[0] == c then Without(s[1..], c) else [s[0]] + Without(s[1..], c)
  }

  /** All leaf characters of a queue of trees, as a bag. */
  function LeafBag(q: seq<Tree>): multiset<char>
  {
    if q == [] then multiset{} else LeafBag(q[..|q| - 1]) + multiset(Leaves(q[|q| - 1]))
  }

  /** The sum of the frequencies of a queue of trees. */
  function SumFreq(q: seq<Tree>): int
  {
    if q == [] then 0 else SumFreq(q[..|q| - 1]) + q[|q| - 1].frequency
  }

  /** Offering a tree to the queue adds its leaves and its frequency. */
  lemma QueueSnoc(q: seq<Tree>, x: Tree)
    ensures LeafBag(q + [x]) == LeafBag(q) + multiset(Leaves(x))
    ensures SumFreq(q + [x]) == SumFreq(q) + x.frequency
  {
    assert (q + [x])[..|q|] == q;
  }

  lemma MapUnionAssoc<K, V>(a: map<K, V>, b: map<K, V>, c: map<K, V>)
    ensures (a + b) + c == a + (b + c)
  {
  }

  /** The queue with its i-th tree taken out. */
  function RemoveAt(q: seq<Tree>, i: int): (r: seq<Tree>)
    requires 0 <= i < |q|
    ensures |r| == |q| - 1
  {
    q[..i] + q[i + 1..]
  }

  /** Taking a tree out of the queue takes out its leaves and its frequency. */
  lemma {:induction false} RemoveAtSplits(q: seq<Tree>, i: int)
    requires 0 <= i < |q|
    ensures LeafBag(q) == LeafBag(RemoveAt(q, i)) + multiset(Leaves(q[i]))
    ensures SumFreq(q) == SumFreq(RemoveAt(q, i)) + q[i].frequency
    decreases |q|
  {
    var front, last := q[..|q| - 1], q[|q| - 1];
    if i == |q| - 1 {
      assert RemoveAt(q, i) == front;
    } else {
      assert q[..i] == front[..i];
      assert q[i + 1..] == front[i + 1..] + [last];
      assert RemoveAt(q, i) == RemoveAt(front, i) + [last];
      RemoveAtSplits(front, i);
      QueueSnoc(RemoveAt(front, i), last);
    }
  }

  /** Every tree in the queue is well formed and counts its leaves' occurrences in text. */
  ghost predicate QueueOk(q: seq<Tree>, text: seq<char>)
  {
    forall i :: 0 <= i < |q| ==> WellFormed(q[i]) && CountsMatch(q[i], text)
  }

  /** A bag in which nothing occurs twice lists distinct characters. */
  lemma BagDistinct(s: seq<char>, keys: set<char>)
    requires multiset(s) == multiset(keys)
    ensures Distinct(s) && forall c :: c in s <==> c in keys
  {
    forall i, j | 0 <= i < j < |s|
      ensures s[i] != s[j]
    {
      assert s == s[..j] + s[j..];
      assert s[i] in s[..j] && s[j] in s[j..];
      assert multiset(s)[s[j]] == multiset(s[..j])[s[j]] + multiset(s[j..])[s[j]];
    }
    forall c
      ensures c in s <==> c in keys
    {
      assert c in s <==> c in multiset(s);
    }
  }

  /**
   * PriorityQueue.poll(): takes out a tree of least frequency. The queue's
   * tie-breaking is unspecified; the first least one in queue order is taken.
   */
  method PollMin(queue: seq<Tree>) returns (t: Tree, rest: seq<Tree>, i: int)
    requires |queue| > 0
    ensures 0 <= i < |queue| && t == queue[i] && rest == RemoveAt(queue, i)
    ensures forall j :: 0 <= j < |queue| ==> t.frequency <= queue[j].frequency
  {
    i := 0;
    var k := 1;
    while k < |queue|
      invariant 0 <= i < k <= |queue|
      invariant forall j :: 0 <= j < k ==> queue[i].frequency <= queue[j].frequency
    {
      if queue[k].frequency < queue[i].frequency {
        i := k;
      }
      k := k + 1;
    }
    t := queue[i];
    rest := RemoveAt(queue, i);
  }

  /** countFrequencies(text): each character of text, mapped to the number of times it occurs. */
  method CountFrequencies(text: seq<char>) returns (result: map<char, int>)
    ensures result.Keys == CharsOf(text)
    ensures forall c :: c in result ==> result[c] == multiset(text)[c]
  {
    result := map[];
    for i := 0 to |text|
      invariant forall c :: c in result <==> c in text[..i]
      invariant forall c :: c in result ==> result[c] == multiset(text[..i])[c]
    {
      var letter := text[i];
      assert text[..i + 1] == text[..i] + [letter];
      if letter in result {
        var freq := result[letter] + 1;
        result := result[letter := freq];
      } else {
        result := result[letter := 1];
      }
    }
    assert text[..|text|] == text;
  }

  /** The cipher makeCipher(t, s) adds: each leaf's path from t, after s, with '0' for left and '1' for right. */
  function Codes(t: Tree, s: seq<char>): map<char, seq<char>>
  {
    match t
    case Leaf(c, _) => map[c := s]
    case Internal(l, r, _) => Codes(l, s + ['0']) + Codes(r, s + ['1'])
  }

  /** a is a prefix of b. */
  predicate IsPrefix(a: seq<char>, b: seq<char>)
  {
    |a| <= |b| && b[..|a|] == a
  }

  /** The codes are given to exactly the leaves, each extends s, and strictly so below an internal node. */
  lemma {:induction false} CodesShape(t: Tree, s: seq<char>)
    ensures forall c :: c in Codes(t, s) <==> c in Leaves(t)
    ensures forall c :: c in Codes(t, s) ==> IsPrefix(s, Codes(t, s)[c])
    ensures t.Internal? ==> forall c :: c in Codes(t, s) ==> |Codes(t, s)[c]| > |s|
  {
    match t
    case Leaf(_, _) =>
    case Internal(l, r, _) =>
      CodesShape(l, s + ['0']);
      CodesShape(r, s + ['1']);
      forall c | c in Codes(t, s)
        ensures IsPrefix(s, Codes(t, s)[c]) && |Codes(t, s)[c]| > |s|
      {
        var code := Codes(t, s)[c];
        if c in Codes(r, s + ['1']) {
          assert code[..|s|] == (s + ['1'])[..|s|];
        } else {
          assert code[..|s|] == (s + ['0'])[..|s|];
        }
      }
  }

  /** No code is a prefix of another's: the cipher of a tree with distinct leaves is prefix-free. */
  predicate PrefixFree(cipher: map<char, seq<char>>)
  {
    forall c, d :: c in cipher && d in cipher && c != d ==> !IsPrefix(cipher[c], cipher[d])
  }

  lemma {:induction false} CodesPrefixFree(t: Tree, s: seq<char>)
    requires Distinct(Leaves(t))
    ensures PrefixFree(Codes(t, s))
  {
    match t
    case Leaf(_, _) =>
    case Internal(l, r, _) =>
      DistinctHalves(Leaves(l), Leaves(r));
      CodesPrefixFree(l, s + ['0']);
      CodesPrefixFree(r, s + ['1']);
      CodesShape(l, s + ['0']);
      CodesShape(r, s + ['1']);
      var cl, cr := Codes(l, s + ['0']), Codes(r, s + ['1']);
      forall c, d | c in Codes(t, s) && d in Codes(t, s) && c != d
        ensures !IsPrefix(Codes(t, s)[c], Codes(t, s)[d])
      {
        if c in cr && d !in cr {
          ForkNotPrefix(s, cr[c], cl[d], '1', '0');
        } else if c !in cr && d in cr {
          ForkNotPrefix(s, cl[c], cr[d], '0', '1');
        }
      }
  }

  /** The halves of a sequence of distinct characters are distinct and share none. */
  lemma DistinctHalves(L: seq<char>, R: seq<char>)
    requires Distinct(L + R)
    ensures Distinct(L) && Distinct(R)
    ensures forall c :: c in R ==> c !in L
  {
    forall i, j | 0 <= i < |L| && 0 <= j < |R|
      ensures L[i] != R[j]
    {
      assert (L + R)[i] == L[i] && (L + R)[|L| + j] == R[j];
    }
    forall i, j | 0 <= i < j < |L|
      ensures L[i] != L[j]
    {
      assert (L + R)[i] == L[i] && (L + R)[j] == L[j];
    }
    forall i, j | 0 <= i < j < |R|
      ensures R[i] != R[j]
    {
      assert (L + R)[|L| + i] == R[i] && (L + R)[|L| + j] == R[j];
    }
  }

  /** Two codes that part ways right after s are not prefixes of each other. */
  lemma ForkNotPrefix(s: seq<char>, x: seq<char>, y: seq<char>, a: char, b: char)
    requires a != b && IsPrefix(s + [a], x) && IsPrefix(s + [b], y)
    ensures !IsPrefix(x, y)
  {
    assert x[|s|] == (s + [a])[|s|];
    assert y[|s|] == (s + [b])[|s|];
  }

  /** A code, or the text "null" that StringBuilder.append writes for a character without one. */
  function CodeOf(cipher: map<char, seq<char>>, c: char): seq<char>
  {
    if c in cipher then cipher[c] else "null"
  }

  /** The concatenation of the codes of text's characters, in text order. */
  function Encoded(cipher: map<char, seq<char>>, text: seq<char>): seq<char>
  {
    if text == [] then [] else CodeOf(cipher, text[0]) + Encoded(cipher, text[1..])
  }

  lemma {:induction false} EncodedSnoc(cipher: map<char, seq<char>>, text: seq<char>, c: char)
    ensures Encoded(cipher, text + [c]) == Encoded(cipher, text) + CodeOf(cipher, c)
    decreases |text|
  {
    if text == [] {
      assert Encoded(cipher, [c]) == CodeOf(cipher, c) + Encoded(cipher, []);
    } else {
      assert (text + [c])[1..] == text[1..] + [c];
      EncodedSnoc(cipher, text[1..], c);
    }
  }

  /** The length of the shortest prefix of bits, at least n long, that is a code; None when there is none. */
  function FirstCode(rc: map<seq<char>, char>, bits: seq<char>, n: nat): (r: Option<nat>)
    requires n <= |bits|
    ensures r.Some? ==> n <= r.value <= |bits| && bits[..r.value] in rc
    decreases |bits| - n
  {
    if bits[..n] in rc then Some(n) else if n == |bits| then None else FirstCode(rc, bits, n + 1)
  }

  /**
   * What decoder(bits) computes with reverse cipher rc: the shortest prefix
   * that is a code is read off and replaced by its character, until nothing is
   * left. Running out of bits mid-code throws NoSuchElementException from
   * removeFirst; an empty code makes the loop read it forever without
   * consuming a bit.
   */
  function Decoded(rc: map<seq<char>, char>, bits: seq<char>): Outcome<seq<char>>
    decreases |bits|
  {
    if bits == [] then Ok([])
    else
      match FirstCode(rc, bits, 0)
      case None => Thrown(NoSuchElement)
      case Some(n) =>
        if n == 0 then Thrown(Diverges)
        else
          match Decoded(rc, bits[n..])
          case Ok(rest) => Ok([rc[bits[..n]]] + rest)
          case Thrown(f) => Thrown(f)
  }

  /** The rest of a decoding after result has been read. */
  function Then(result: seq<char>, r: Outcome<seq<char>>): Outcome<seq<char>>
  {
    match r
    case Ok(rest) => Ok(result + rest)
    case Thrown(f) => Thrown(f)
  }

  lemma ThenEmpty(r: Outcome<seq<char>>)
    ensures Then([], r) == r
  {
    if r.Ok? {
      assert [] + r.value == r.value;
    }
  }

  lemma ThenAppend(result: seq<char>, c: char, r: Outcome<seq<char>>)
    ensures Then(result, Then([c], r)) == Then(result + [c], r)
  {
    if r.Ok? {
      assert result + ([c] + r.value) == result + [c] + r.value;
    }
  }

  /** FirstCode finds m when no prefix from n up to m is a code and the m-prefix is. */
  lemma {:induction false} FirstCodeAt(rc: map<seq<char>, char>, bits: seq<char>, n: nat, m: nat)
    requires n <= m <= |bits| && bits[..m] in rc
    requires forall j :: n <= j < m ==> bits[..j] !in rc
    ensures FirstCode(rc, bits, n) == Some(m)
    decreases m - n
  {
    if n < m {
      FirstCodeAt(rc, bits, n + 1, m);
    }
  }

  /** rc inverts cipher exactly: every code maps back to its character, and rc holds no other code. */
  ghost predicate Inverts(rc: map<seq<char>, char>, cipher: map<char, seq<char>>)
  {
    (forall c :: c in cipher ==> cipher[c] in rc && rc[cipher[c]] == c) &&
    (forall code :: code in rc ==> rc[code] in cipher && cipher[rc[code]] == code)
  }

  /**
   * Decoding the encoding of text followed by more bits reads text back and
   * then decodes the rest, when every character of text has a code, no code is
   * empty and the codes are prefix-free.
   */
  lemma {:induction false} DecodeAfterEncoded(cipher: map<char, seq<char>>, rc: map<seq<char>, char>, text: seq<char>, tail: seq<char>)
    requires PrefixFree(cipher) && Inverts(rc, cipher)
    requires forall c :: c in cipher ==> cipher[c] != []
    requires forall c :: c in text ==> c in cipher
    ensures Decoded(rc, Encoded(cipher, text) + tail) == Then(text, Decoded(rc, tail))
    decreases |text|
  {
    if text == [] {
      assert Encoded(cipher, text) + tail == tail;
      ThenEmpty(Decoded(rc, tail));
    } else {
      var c := text[0];
      var code := cipher[c];
      var rest := Encoded(cipher, text[1..]) + tail;
      var bits := code + rest;
      assert Encoded(cipher, text) + tail == bits;
      assert bits[..|code|] == code;
      forall j | 0 <= j < |code|
        ensures bits[..j] !in rc
      {
        assert bits[..j] == code[..j];
      }
      FirstCodeAt(rc, bits, 0, |code|);
      assert bits[|code|..] == rest;
      DecodeAfterEncoded(cipher, rc, text[1..], tail);
      assert text == [c] + text[1..];
      ThenCons(c, text[1..], Decoded(rc, tail));
    }
  }

  lemma ThenCons(c: char, text: seq<char>, r: Outcome<seq<char>>)
    ensures Then([c] + text, r) == match Then(text, r) case Ok(v) => Ok([c] + v) case Thrown(f) => Thrown(f)
  {
    if r.Ok? {
      assert [c] + text + r.value == [c] + (text + r.value);
    }
  }

  /** Round trip: decoding the encoding of text gives text back. */
  lemma RoundTrip(cipher: map<char, seq<char>>, rc: map<seq<char>, char>, text: seq<char>)
    requires PrefixFree(cipher) && Inverts(rc, cipher)
    requires forall c :: c in cipher ==> cipher[c] != []
    requires forall c :: c in text ==> c in cipher
    ensures Decoded(rc, Encoded(cipher, text)) == Ok(text)
  {
    DecodeAfterEncoded(cipher, rc, text, []);
    assert Encoded(cipher, text) + [] == Encoded(cipher, text);
    assert text + [] == text;
  }

  /**
   * Bits that stop part-way through a code: decoding runs out of input inside
   * the inner loop, where removeFirst throws NoSuchElementException.
   */
  lemma TrailingBitsThrow(cipher: map<char, seq<char>>, rc: map<seq<char>, char>, text: seq<char>, c: char, n: nat)
    requires PrefixFree(cipher) && Inverts(rc, cipher)
    requires forall d :: d in cipher ==> cipher[d] != []
    requires forall d :: d in text ==> d in cipher
    requires c in cipher && 0 < n < |cipher[c]|
    ensures Decoded(rc, Encoded(cipher, text) + cipher[c][..n]) == Thrown(NoSuchElement)
  {
    var p := cipher[c][..n];
    forall j | 0 <= j <= |p|
      ensures p[..j] !in rc
    {
      if p[..j] in rc {
        var d := rc[p[..j]];
        assert cipher[d] == cipher[c][..j];
        assert IsPrefix(cipher[d], cipher[c]);
      }
    }
    FirstCodeNone(rc, p, 0);
    DecodeAfterEncoded(cipher, rc, text, p);
  }

  /** FirstCode finds nothing when no prefix from n on is a code. */
  lemma {:induction false} FirstCodeNone(rc: map<seq<char>, char>, bits: seq<char>, n: nat)
    requires n <= |bits|
    requires forall j :: n <= j <= |bits| ==> bits[..j] !in rc
    ensures FirstCode(rc, bits, n) == None
    decreases |bits| - n
  {
    if n < |bits| {
      FirstCodeNone(rc, bits, n + 1);
    }
  }

  /** A tree built from a text that is a single leaf stands for one distinct character. */
  lemma LeafOneChar(t: Tree, text: seq<char>)
    requires BuiltFrom(t, text)
    ensures t.Leaf? ==> |CharsOf(text)| == 1
  {
    if t.Leaf? {
      assert CharsOf(text) == {t.character};
    }
  }

  /**
   * The cipher makeCipher builds from the root of a tree built from text:
   * codes for exactly the characters of text, prefix-free, and none empty
   * when text has two or more distinct characters.
   */
  lemma CipherOfBuilt(t: Tree, text: seq<char>)
    requires BuiltFrom(t, text)
    ensures forall c :: c in Codes(t, []) <==> c in text
    ensures PrefixFree(Codes(t, []))
    ensures |CharsOf(text)| >= 2 ==> forall c :: c in Codes(t, []) ==> Codes(t, [])[c] != []
  {
    CodesShape(t, []);
    CodesPrefixFree(t, []);
    if |CharsOf(text)| >= 2 {
      LeafOneChar(t, text);
    }
  }

  /** What createReverseCipher leaves in a reverse cipher that started empty, for a prefix-free cipher: its exact inverse. */
  lemma ReverseOfPrefixFree(cipher: map<char, seq<char>>, rc: map<seq<char>, char>)
    requires PrefixFree(cipher)
    requires forall k :: k in cipher ==> cipher[k] in rc && rc[cipher[k]] in cipher && cipher[rc[cipher[k]]] == cipher[k]
    requires forall code :: code in rc ==> rc[code] in cipher && cipher[rc[code]] == code
    ensures Inverts(rc, cipher)
  {
    forall k | k in cipher
      ensures rc[cipher[k]] == k
    {
      var d := rc[cipher[k]];
      assert IsPrefix(cipher[d], cipher[k]) by {
        assert cipher[k][..|cipher[k]|] == cipher[k];
      }
    }
  }

  /**
   * With a single distinct character the tree is one leaf, whose code is
   * empty: the whole text encodes to nothing, and nothing decodes to nothing.
   */
  lemma SingleSymbolLost(t: Tree, text: seq<char>, rc: map<seq<char>, char>)
    requires BuiltFrom(t, text) && |CharsOf(text)| == 1
    ensures t.Leaf? && Codes(t, []) == map[t.character := []]
    ensures Encoded(Codes(t, []), text) == []
    ensures Decoded(rc, Encoded(Codes(t, []), text)) == Ok([]) != Ok(text)
  {
    if t.Internal? {
      InternalTwoChars(t, text);
      assert false;
    }
    assert forall c :: c in text ==> c == t.character;
    AllEmptyCodes(Codes(t, []), text);
  }

  /** An internal root has a leaf on each side, two distinct characters of the text. */
  lemma InternalTwoChars(t: Tree, text: seq<char>)
    requires BuiltFrom(t, text) && t.Internal?
    ensures |CharsOf(text)| >= 2
  {
    LeavesNonEmpty(t.left);
    LeavesNonEmpty(t.right);
    DistinctHalves(Leaves(t.left), Leaves(t.right));
    var a, b := Leaves(t.left)[0], Leaves(t.right)[0];
    var S := CharsOf(text);
    assert a in Leaves(t) && b in Leaves(t);
    assert S == {a, b} + (S - {a, b});
  }

  lemma {:induction false} LeavesNonEmpty(t: Tree)
    ensures |Leaves(t)| >= 1
  {
    match t
    case Leaf(_, _) =>
    case Internal(l, r, _) => LeavesNonEmpty(l);
  }

  /** A text whose every character has the empty code encodes to nothing. */
  lemma {:induction false} AllEmptyCodes(cipher: map<char, seq<char>>, text: seq<char>)
    requires forall c :: c in text ==> c in cipher && cipher[c] == []
    ensures Encoded(cipher, text) == []
    decreases |text|
  {
    if text != [] {
      assert text[0] in text;
      assert forall c :: c in text[1..] ==> c in text;
      AllEmptyCodes(cipher, text[1..]);
    }
  }

  /** The cipher with a lone leaf given the one-bit code "0" instead of the empty code. */
  function FixedCodes(t: Tree): (r: map<char, seq<char>>)
    ensures forall c :: c in r <==> c in Leaves(t)
  {
    CodesShape(t, []);
    if t.Leaf? then map[t.character := ['0']] else Codes(t, [])
  }

  /** With the corrected cipher every non-empty text comes back, including a single repeated character. */
  lemma FixedRoundTrip(t: Tree, text: seq<char>, rc: map<seq<char>, char>)
    requires BuiltFrom(t, text) && Inverts(rc, FixedCodes(t))
    ensures Decoded(rc, Encoded(FixedCodes(t), text)) == Ok(text)
  {
    CipherOfBuilt(t, text);
    if t.Internal? {
      CodesShape(t, []);
    }
    RoundTrip(FixedCodes(t), rc, text);
  }

  /** The state of the first loop of buildTree: the leaves of the keys taken so far are queued, keys are what remain. */
  ghost predicate LeafLoop(freq: map<char, int>, text: seq<char>, queue: seq<Tree>, keys: set<char>, rest: seq<char>)
  {
    keys <= freq.Keys && keys == CharsOf(rest) &&
    QueueOk(queue, text) && SumFreq(queue) + |rest| == |text| &&
    LeafBag(queue) + multiset(keys) == multiset(freq.Keys) &&
    (forall c :: c in rest ==> multiset(rest)[c] == multiset(text)[c]) &&
    (|queue| == 0 <==> keys == freq.Keys)
  }

  lemma LeafStep(freq: map<char, int>, text: seq<char>, queue: seq<Tree>, keys: set<char>, rest: seq<char>, c: char)
    requires LeafLoop(freq, text, queue, keys, rest) && c in keys
    requires forall d :: d in freq ==> freq[d] == multiset(text)[d]
    ensures LeafLoop(freq, text, queue + [Leaf(c, freq[c])], keys - {c}, Without(rest, c))
  {
    var leaf := Leaf(c, freq[c]);
    QueueSnoc(queue, leaf);
    SnocOk(queue, text, leaf);
    assert multiset(keys) == multiset(keys - {c}) + multiset{c};
  }

  /** The first loop of buildTree: one leaf per counted character, offered to the queue. */
  method LeafQueue(freq: map<char, int>, ghost text: seq<char>) returns (queue: seq<Tree>)
    requires freq.Keys == CharsOf(text)
    requires forall c :: c in freq ==> freq[c] == multiset(text)[c]
    ensures QueueOk(queue, text) && SumFreq(queue) == |text|
    ensures LeafBag(queue) == multiset(freq.Keys)
    ensures |queue| == 0 <==> text == []
  {
    queue := [];
    var keys := freq.Keys;
    ghost var rest := text;
    while keys != {}
      invariant LeafLoop(freq, text, queue, keys, rest)
      decreases keys
    {
      var c :| c in keys;
      LeafStep(freq, text, queue, keys, rest, c);
      queue := queue + [Leaf(c, freq[c])];
      keys := keys - {c};
      rest := Without(rest, c);
    }
  }

  /** The second loop of buildTree: the two least frequent trees are merged until at most one is left. */
  method MergeAll(queue0: seq<Tree>, ghost text: seq<char>, ghost keys: set<char>) returns (root: Option<Tree>)
    requires QueueOk(queue0, text) && SumFreq(queue0) == |text| && LeafBag(queue0) == multiset(keys)
    ensures root.None? <==> |queue0| == 0
    ensures root.Some? ==> WellFormed(root.value) && CountsMatch(root.value, text)
    ensures root.Some? ==> multiset(Leaves(root.value)) == multiset(keys) && root.value.frequency == |text|
  {
    var queue := queue0;
    while |queue| > 1
      invariant QueueOk(queue, text) && SumFreq(queue) == |text|
      invariant LeafBag(queue) == multiset(keys)
      invariant |queue| == 0 <==> |queue0| == 0
      decreases |queue|
    {
      var right, q1, i := PollMin(queue);
      var left, q2, j := PollMin(q1);
      var parent := Internal(left, right, left.frequency + right.frequency);
      MergeKeeps(queue, text, i, j, parent);
      queue := q2 + [parent];
    }
    if |queue| == 0 {
      root := None;
    } else {
      root := Some(queue[0]);
      assert queue == [queue[0]] && queue[..0] == [];
    }
  }

  /** Taking a tree out keeps the rest of the queue well formed. */
  lemma RemoveAtOk(q: seq<Tree>, text: seq<char>, i: int)
    requires QueueOk(q, text) && 0 <= i < |q|
    ensures QueueOk(RemoveAt(q, i), text)
  {
    var r := RemoveAt(q, i);
    forall k | 0 <= k < |r|
      ensures WellFormed(r[k]) && CountsMatch(r[k], text)
    {
      if k < i { assert r[k] == q[k]; } else { assert r[k] == q[k + 1]; }
    }
  }

  /** Adding the merge of two trees taken out of the queue keeps its leaves, its total and its shape. */
  lemma MergeKeeps(queue: seq<Tree>, text: seq<char>, i: int, j: int, parent: Tree)
    requires QueueOk(queue, text) && 0 <= i < |queue| && 0 <= j < |queue| - 1
    requires parent == Internal(RemoveAt(queue, i)[j], queue[i], RemoveAt(queue, i)[j].frequency + queue[i].frequency)
    ensures QueueOk(RemoveAt(RemoveAt(queue, i), j) + [parent], text)
    ensures LeafBag(RemoveAt(RemoveAt(queue, i), j) + [parent]) == LeafBag(queue)
    ensures SumFreq(RemoveAt(RemoveAt(queue, i), j) + [parent]) == SumFreq(queue)
  {
    var q1 := RemoveAt(queue, i);
    var q2 := RemoveAt(q1, j);
    RemoveAtSplits(queue, i);
    RemoveAtSplits(q1, j);
    QueueSnoc(q2, parent);
    RemoveAtOk(queue, text, i);
    RemoveAtOk(q1, text, j);
    SnocOk(q2, text, parent);
  }

  /** Offering a well-formed tree that counts text keeps the queue well formed. */
  lemma SnocOk(q: seq<Tree>, text: seq<char>, x: Tree)
    requires QueueOk(q, text) && WellFormed(x) && CountsMatch(x, text)
    ensures QueueOk(q + [x], text)
  {
    var r := q + [x];
    forall k | 0 <= k < |r|
      ensures WellFormed(r[k]) && CountsMatch(r[k], text)
    {
      if k < |q| { assert r[k] == q[k]; }
    }
  }

  class HuffmanEncoder {
    var root: Option<Tree>
    var sigmaSize: int
    var cipher: map<char, seq<char>>
    var reverseCipher: map<seq<char>, char>

    /** A new encoder: no tree, empty cipher and reverse cipher. */
    constructor ()
      ensures root == None && sigmaSize == 0 && cipher == map[] && reverseCipher == map[]
    {
      root := None;
      sigmaSize := 0;
      cipher := map[];
      reverseCipher := map[];
    }

    /** getCipher() */
    method GetCipher() returns (c: map<char, seq<char>>)
      ensures c == cipher
    {
      c := cipher;
    }

    /**
     * buildTree(text): one leaf per distinct character, carrying its count,
     * in the priority queue; the two least frequent trees are merged (the
     * first polled on the right) until one is left, which becomes the root.
     * An empty text leaves the queue empty and root null.
     */
    method BuildTree(text: seq<char>)
      modifies this
      ensures cipher == old(cipher) && reverseCipher == old(reverseCipher)
      ensures sigmaSize == |CharsOf(text)|
      ensures root.None? <==> text == []
      ensures root.Some? ==> BuiltFrom(root.value, text)
    {
      var freq := CountFrequencies(text);
      var queue := LeafQueue(freq, text);
      root := MergeAll(queue, text, freq.Keys);
      if root.Some? {
        BagDistinct(Leaves(root.value), freq.Keys);
      }
      sigmaSize := |freq|;
    }

    /** makeCipher(node, s): puts into the cipher the path of every leaf below node, after s. */
    method MakeCipher(node: Tree, s: seq<char>)
      modifies this
      ensures cipher == old(cipher) + Codes(node, s)
      ensures root == old(root) && sigmaSize == old(sigmaSize) && reverseCipher == old(reverseCipher)
      decreases node
    {
      if node.Internal? {
        ghost var before := cipher;
        MakeCipher(node.left, s + ['0']);
        MakeCipher(node.right, s + ['1']);
        MapUnionAssoc(before, Codes(node.left, s + ['0']), Codes(node.right, s + ['1']));
      } else {
        cipher := cipher[node.character := s];
      }
    }

    /** encoder(text): the codes of text's characters, concatenated in order. */
    method Encoder(text: seq<char>) returns (result: seq<char>)
      ensures result == Encoded(cipher, text)
    {
      result := [];
      for i := 0 to |text|
        invariant result == Encoded(cipher, text[..i])
      {
        assert text[..i + 1] == text[..i] + [text[i]];
        EncodedSnoc(cipher, text[..i], text[i]);
        result := result + CodeOf(cipher, text[i]);
      }
      assert text[..|text|] == text;
    }

    /**
     * encode(text): builds the tree and the cipher, then encodes. An empty
     * text leaves root null, on which makeCipher throws NullPointerException.
     */
    method Encode(text: seq<char>) returns (r: Outcome<seq<char>>)
      modifies this
      ensures reverseCipher == old(reverseCipher)
      ensures text == [] ==> r == Thrown(NullPointer)
      ensures text != [] ==> (root.Some? && BuiltFrom(root.value, text) &&
                              cipher == old(cipher) + Codes(root.value, []) && r == Ok(Encoded(cipher, text)))
    {
      BuildTree(text);
      if root.None? {
        return Thrown(NullPointer);
      }
      MakeCipher(root.value, []);
      var e := Encoder(text);
      r := Ok(e);
    }

    /**
     * createReverseCipher(c): puts each entry of c, reversed, into the reverse
     * cipher. Every code of c then maps back to a character that has that
     * code; the rest of the reverse cipher is as it was. With two characters
     * sharing a code, which of them wins depends on the map's iteration order.
     */
    method CreateReverseCipher(c: map<char, seq<char>>)
      modifies this
      ensures root == old(root) && sigmaSize == old(sigmaSize) && cipher == old(cipher)
      ensures forall k :: k in c ==> c[k] in reverseCipher && reverseCipher[c[k]] in c && c[reverseCipher[c[k]]] == c[k]
      ensures forall code :: code in old(reverseCipher) ==> code in reverseCipher
      ensures forall code :: code in reverseCipher ==>
                 (code in old(reverseCipher) && reverseCipher[code] == old(reverseCipher)[code]) ||
                 (reverseCipher[code] in c && c[reverseCipher[code]] == code)
    {
      var entries := c.Keys;
      while entries != {}
        invariant entries <= c.Keys
        invariant root == old(root) && sigmaSize == old(sigmaSize) && cipher == old(cipher)
        invariant forall k :: k in c && k !in entries ==> c[k] in reverseCipher && reverseCipher[c[k]] in c && c[reverseCipher[c[k]]] == c[k]
        invariant forall code :: code in old(reverseCipher) ==> code in reverseCipher
        invariant forall code :: code in reverseCipher ==>
                    (code in old(reverseCipher) && reverseCipher[code] == old(reverseCipher)[code]) ||
                    (reverseCipher[code] in c && c[reverseCipher[code]] == code)
        decreases entries
      {
        var e :| e in entries;
        reverseCipher := reverseCipher[c[e] := e];
        entries := entries - {e};
      }
    }

    /**
     * decoder(text): reads the shortest prefix of the remaining bits that is
     * in the reverse cipher, appends its character, and starts over.
     */
    method Decoder(text: seq<char>) returns (r: Outcome<seq<char>>)
      ensures r == Decoded(reverseCipher, text)
    {
      var characters := text;
      var result: seq<char> := [];
      assert Then(result, Decoded(reverseCipher, characters)) == Decoded(reverseCipher, text) by {
        ThenEmpty(Decoded(reverseCipher, text));
      }
      while |characters| > 0
        invariant Decoded(reverseCipher, text) == Then(result, Decoded(reverseCipher, characters))
        decreases |characters|
      {
        var current: seq<char> := [];
        ghost var start := characters;
        while current !in reverseCipher
          invariant current + characters == start
          invariant FirstCode(reverseCipher, start, 0) == FirstCode(reverseCipher, start, |current|)
          decreases |characters|
        {
          if characters == [] {
            assert start[..|start|] == current;
            return Thrown(NoSuchElement);
          }
          assert start[..|current|] == current;
          current := current + [characters[0]];
          characters := characters[1..];
        }
        if current == [] {
          assert start[..0] == current;
          return Thrown(Diverges);
        }
        assert start[..|current|] == current && start[|current|..] == characters;
        ThenAppend(result, reverseCipher[current], Decoded(reverseCipher, characters));
        result := result + [reverseCipher[current]];
      }
      r := Ok(result);
      assert result + [] == result;
    }

    /** decode(c, text): reverses c into the reverse cipher, then decodes text with it. */
    method Decode(c: map<char, seq<char>>, text: seq<char>) returns (r: Outcome<seq<char>>)
      modifies this
      ensures cipher == old(cipher) && root == old(root)
      ensures forall k :: k in c ==> c[k] in reverseCipher && reverseCipher[c[k]] in c && c[reverseCipher[c[k]]] == c[k]
      ensures forall code :: code in reverseCipher ==>
        (code in old(reverseCipher) && reverseCipher[code] == old(reverseCipher)[code]) ||
        (reverseCipher[code] in c && c[reverseCipher[code]] == code)
      ensures r == Decoded(reverseCipher, text)
    {
      CreateReverseCipher(c);
      r := Decoder(text);
    }
  }

  /**
   * encode(text) on a new encoder, then decode(getCipher(), encoded): the text
   * comes back when it has two or more distinct characters; a text of one
   * repeated character encodes to the empty string and decodes to the empty
   * string; the empty text throws NullPointerException in encode.
   */
  method EncodeThenDecode(text: seq<char>) returns (enc: Outcome<seq<char>>, dec: Outcome<seq<char>>)
    ensures text == [] <==> enc == Thrown(NullPointer)
    ensures |CharsOf(text)| >= 2 ==> dec == Ok(text)
    ensures |CharsOf(text)| == 1 ==> enc == Ok([]) && dec == Ok([])
  {
    var h := new HuffmanEncoder();
    enc := h.Encode(text);
    if enc.Thrown? {
      dec := Thrown(NullPointer);
      return;
    }
    var cipher := h.GetCipher();
    dec := h.Decode(cipher, enc.value);
    var t := h.root.value;
    assert cipher == Codes(t, []);
    CipherOfBuilt(t, text);
    if |CharsOf(text)| >= 2 {
      ReverseOfPrefixFree(cipher, h.reverseCipher);
      RoundTrip(cipher, h.reverseCipher, text);
    } else if |CharsOf(text)| == 1 {
      SingleSymbolLost(t, text, h.reverseCipher);
    }
  }
}
