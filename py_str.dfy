/** The few Python 3 string built-ins that the column-dictionary parser relies on:
    str.isspace (per character), str.strip(), str.split() without a separator,
    " ".join(...), str.replace("\n", "") and slicing s[k:]. */
module PyStr {

  /** The characters Python 3 treats as whitespace in str.split() and str.strip()
      (those for which str.isspace() holds). */
  predicate IsSpace(c: char) {
    var n := c as int;
    (0x09 <= n <= 0x0D) || (0x1C <= n <= 0x20) || n == 0x85 || n == 0xA0 ||
    n == 0x1680 || (0x2000 <= n <= 0x200A) || n == 0x2028 || n == 0x2029 ||
    n == 0x202F || n == 0x205F || n == 0x3000
  }

  predicate NoSpace(s: string) {
    forall i :: 0 <= i < |s| ==> !IsSpace(s[i])
  }

  predicate AllSpace(s: string) {
    forall i :: 0 <= i < |s| ==> IsSpace(s[i])
  }

  /** Neither end of s is whitespace: what str.strip() leaves behind. */
  predicate Trimmed(s: string) {
    s == [] || (!IsSpace(s[0]) && !IsSpace(s[|s| - 1]))
  }

  /** s[k:] -- empty once k reaches past the end, as in Python. */
  function SliceFrom<T>(s: seq<T>, k: nat): seq<T> {
    if k <= |s| then s[k..] else []
  }

  /** str.lstrip(). */
  function LStrip(s: string): string {
    if s != [] && IsSpace(s[0]) then LStrip(s[1..]) else s
  }

  /** str.rstrip(). */
  function RStrip(s: string): string {
    if s != [] && IsSpace(s[|s| - 1]) then RStrip(s[..|s| - 1]) else s
  }

  /** str.strip(): s without its leading and trailing whitespace. */
  function Strip(s: string): string {
    RStrip(LStrip(s))
  }

  /** lstrip leaves the suffix of s that starts after its leading whitespace. */
  lemma {:induction false} LStripSpec(s: string)
    ensures var r := LStrip(s);
      |r| <= |s| && r == s[|s| - |r|..] && AllSpace(s[..|s| - |r|]) &&
      (r == [] || !IsSpace(r[0]))
  {
    if s != [] && IsSpace(s[0]) {
      LStripSpec(s[1..]);
      var r := LStrip(s);
      assert s[..|s| - |r|] == [s[0]] + s[1..][..|s| - 1 - |r|];
    }
  }

  /** rstrip leaves the prefix of s that ends before its trailing whitespace. */
  lemma {:induction false} RStripSpec(s: string)
    ensures var r := RStrip(s);
      |r| <= |s| && r == s[..|r|] && AllSpace(s[|r|..]) &&
      (r == [] || !IsSpace(r[|r| - 1]))
  {
    if s != [] && IsSpace(s[|s| - 1]) {
      var p := s[..|s| - 1];
      RStripSpec(p);
      var r := RStrip(s);
      assert s[|r|..] == p[|r|..] + [s[|s| - 1]];
    }
  }

  /** What strip leaves has no whitespace at either end. */
  lemma StripTrimmed(s: string)
    ensures Trimmed(Strip(s))
  {
    var l := LStrip(s);
    LStripSpec(s);
    RStripSpec(l);
  }

  /** The length of the run of non-whitespace characters that starts s. */
  function WordLen(s: string): (n: nat)
    ensures n <= |s| && NoSpace(s[..n])
    ensures n < |s| ==> IsSpace(s[n])
    ensures s != [] && !IsSpace(s[0]) ==> n > 0
  {
    if s == [] || IsSpace(s[0]) then 0 else 1 + WordLen(s[1..])
  }

  /** str.split() with no separator: the maximal runs of non-whitespace characters
      of s, in order; never an empty field. */
  function Split(s: string): (fields: seq<string>)
    ensures forall i :: 0 <= i < |fields| ==> fields[i] != [] && NoSpace(fields[i])
    decreases |s|
  {
    if s == [] then []
    else if IsSpace(s[0]) then Split(s[1..])
    else
      var n := WordLen(s);
      [s[..n]] + Split(s[n..])
  }

  /** sep.join(parts). */
  function Join(sep: string, parts: seq<string>): string {
    if |parts| == 0 then ""
    else if |parts| == 1 then parts[0]
    else parts[0] + sep + Join(sep, parts[1..])
  }

  /** s.replace([c], ""): s with every occurrence of c removed. */
  function RemoveChar(s: string, c: char): (r: string)
    ensures c !in r
    ensures |r| <= |s|
    ensures c !in s ==> r == s
  {
    if s == [] then []
    else if s[0] == c then RemoveChar(s[1..], c)
    else [s[0]] + RemoveChar(s[1..], c)
  }

  /** Words that Split produces: non-empty and free of whitespace. */
  predicate Words(parts: seq<string>) {
    forall i :: 0 <= i < |parts| ==> parts[i] != [] && NoSpace(parts[i])
  }

  // ---------------------------------------------------------------------------
  // Properties of strip

  /** Strip is pinned down uniquely: whatever whitespace surrounds a trimmed
      string, stripping gives that string back. */
  lemma {:induction false} StripUnique(pre: string, mid: string, post: string)
    requires AllSpace(pre) && AllSpace(post) && Trimmed(mid)
    ensures Strip(pre + mid + post) == mid
  {
    var tail := mid + post;
    assert Strip(pre + tail) == mid by {
      LStripPrefix(pre, tail);
      StripTail(mid, post);
    }
    assert pre + mid + post == pre + tail;
  }

  lemma StripTail(mid: string, post: string)
    requires AllSpace(post) && Trimmed(mid)
    ensures RStrip(LStrip(mid + post)) == mid
  {
    if mid == [] {
      assert mid + post == post;
      LStripAllSpace(post);
    } else {
      assert (mid + post)[0] == mid[0];
      RStripSuffix(mid, post);
    }
  }

  lemma {:induction false} LStripAllSpace(s: string)
    requires AllSpace(s)
    ensures LStrip(s) == []
  {
    if s != [] { LStripAllSpace(s[1..]); }
  }

  lemma {:induction false} LStripPrefix(pre: string, rest: string)
    requires AllSpace(pre)
    ensures LStrip(pre + rest) == LStrip(rest)
  {
    if pre != [] {
      var s := pre + rest;
      assert s[0] == pre[0];
      assert s[1..] == pre[1..] + rest;
      assert LStrip(s) == LStrip(s[1..]);
      LStripPrefix(pre[1..], rest);
    } else {
      assert pre + rest == rest;
    }
  }

  lemma {:induction false} RStripSuffix(mid: string, post: string)
    requires AllSpace(post) && mid != [] && !IsSpace(mid[|mid| - 1])
    ensures RStrip(mid + post) == mid
  {
    if post == [] {
      assert mid + post == mid;
    } else {
      var p := post[..|post| - 1];
      assert (mid + post)[..|mid + post| - 1] == mid + p;
      RStripSuffix(mid, p);
    }
  }

  /** A string strips to nothing exactly when it is all whitespace: the rule
      by which a header cell counts as a dummy column and a cell as empty. */
  lemma StripEmpty(s: string)
    ensures Strip(s) == [] <==> AllSpace(s)
  {
    var l := LStrip(s);
    LStripSpec(s);
    RStripSpec(l);
    if Strip(s) == [] {
      assert s == s[..|s| - |l|] + l;
      assert l == l[|RStrip(l)|..];
    }
  }

  /** Stripping twice is stripping once. */
  lemma StripIdempotent(s: string)
    ensures Strip(Strip(s)) == Strip(s)
  {
    var r := Strip(s);
    StripTrimmed(s);
    assert [] + r + [] == r;
    StripUnique([], r, []);
  }

  // ---------------------------------------------------------------------------
  // Properties of split and join

  /** Splitting a space-joined list of words gives the words back: the
      description of a column is exactly its remaining fields. */
  lemma {:induction false} SplitJoin(parts: seq<string>)
    requires Words(parts)
    ensures Split(Join(" ", parts)) == parts
  {
    if |parts| == 0 {
    } else if |parts| == 1 {
      SplitWord(parts[0], "");
      assert parts[0] + "" == parts[0];
    } else {
      var rest := Join(" ", parts[1..]);
      assert Join(" ", parts) == parts[0] + (" " + rest);
      SplitWord(parts[0], " " + rest);
      assert (" " + rest)[1..] == rest;
      SplitJoin(parts[1..]);
      assert parts == [parts[0]] + parts[1..];
    }
  }

  /** A word followed by a string that is empty or starts with whitespace splits
      off as the first field. */
  lemma {:induction false} SplitWord(w: string, rest: string)
    requires w != [] && NoSpace(w)
    requires rest == [] || IsSpace(rest[0])
    ensures Split(w + rest) == [w] + Split(rest)
  {
    WordLenOf(w, rest);
    assert (w + rest)[..|w|] == w;
    assert (w + rest)[|w|..] == rest;
  }

  lemma {:induction false} WordLenOf(w: string, rest: string)
    requires NoSpace(w)
    requires rest == [] || IsSpace(rest[0])
    ensures WordLen(w + rest) == |w|
  {
    if w == [] {
      assert w + rest == rest;
    } else {
      assert (w + rest)[1..] == w[1..] + rest;
      WordLenOf(w[1..], rest);
    }
  }

  /** Joining no word yields the empty string, joining words yields no
      surrounding whitespace. */
  lemma {:induction false} JoinTrimmed(parts: seq<string>)
    requires Words(parts)
    ensures Join(" ", parts) == "" <==> parts == []
    ensures Trimmed(Join(" ", parts))
  {
    if |parts| > 1 {
      JoinTrimmed(parts[1..]);
      var rest := Join(" ", parts[1..]);
      assert Join(" ", parts) == parts[0] + " " + rest;
    }
  }
}
