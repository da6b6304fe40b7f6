/** Shared vocabulary of the formatting units: optional bids, the
    (fragments, next cursor) pair every `apply` returns, the regular
    expression character classes and a few leftmost scanners. */
module Text {

  /** A bid, a regex hit or an end position that may be missing. */
  datatype Option<+T> = None | Some(value: T) {
    function GetOr(default: T): T {
      match this
      case Some(v) => v
      case None => default
    }
  }

  /** What a unit's `apply(s, pos)` returns: the fragments it emits, in
      order, and the cursor where the dispatcher resumes. */
  datatype Step = Step(frags: seq<string>, next: nat)

  /** `\s` without `re.U` (Python 2): ASCII whitespace only. */
  predicate IsSpace(c: char) {
    c == ' ' || c == '\t' || c == '\n' || c == '\r' || c == '\U{b}' || c == '\U{c}'
  }

  /** `\s` with `re.U`: the whitespace code points of the Unicode
      database shipped with Python 2.7. */
  predicate IsSpaceU(c: char) {
    || IsSpace(c)
    || ('\U{1c}' <= c <= '\U{1f}')
    || c == '\U{85}' || c == '\U{a0}' || c == '\U{1680}' || c == '\U{180e}'
    || ('\U{2000}' <= c <= '\U{200a}')
    || c == '\U{2028}' || c == '\U{2029}' || c == '\U{202f}' || c == '\U{205f}'
    || c == '\U{3000}'
  }

  /** `\w` without `re.U`: ASCII letters, digits and underscore. */
  predicate IsWord(c: char) {
    ('a' <= c <= 'z') || ('A' <= c <= 'Z') || ('0' <= c <= '9') || c == '_'
  }

  /** The characters that start a newline sequence. */
  predicate IsNewline(c: char) {
    c == '\n' || c == '\r'
  }

  /** A two-character newline sequence, `\r\n` or `\n\r`, starts at `i`. */
  predicate NewlinePairAt(s: string, i: nat) {
    i + 1 < |s| && IsNewline(s[i]) && IsNewline(s[i + 1]) && s[i] != s[i + 1]
  }

  /** Where one newline sequence starting at `i` ends: the pair when
      there is one, else the single character. Every alternation of the
      four newline sequences in the source prefers the pairs, in either
      order, since no two of them start alike. */
  function NewlineEnd(s: string, i: nat): (e: nat)
    requires i < |s| && IsNewline(s[i])
    ensures e == i + 1 || e == i + 2
    ensures e == i + 2 <==> NewlinePairAt(s, i)
  {
    if NewlinePairAt(s, i) then i + 2 else i + 1
  }

  /** `u"".join(fragments)`. */
  function Concat(fs: seq<string>): (r: string)
    ensures fs == [] ==> r == []
  {
    if fs == [] then [] else fs[0] + Concat(fs[1..])
  }

  lemma {:induction false} ConcatAppend(a: seq<string>, b: seq<string>)
    ensures Concat(a + b) == Concat(a) + Concat(b)
    decreases |a|
  {
    if a == [] {
      assert a + b == b;
    } else {
      assert (a + b)[1..] == a[1..] + b;
      ConcatAppend(a[1..], b);
    }
  }

  /** Appending nothing; kept apart so that callers do not pay for the
      extensionality argument in a large context. */
  lemma AppendNil<T>(x: seq<T>)
    ensures x + [] == x
  {
  }

  /** Nothing in front; kept apart for the same reason. */
  lemma NilAppend<T>(x: seq<T>)
    ensures [] + x == x
  {
  }

  lemma Assoc<T>(x: seq<T>, y: seq<T>, z: seq<T>)
    ensures x + y + z == x + (y + z)
  {
  }

  /** Joining a fragment list that starts with a given fragment. */
  lemma ConcatCons(f: string, fs: seq<string>)
    ensures Concat([f] + fs) == f + Concat(fs)
  {
    assert ([f] + fs)[1..] == fs;
  }

  /** The literal text a unit emits ahead of the spot where it acts:
      `s[pos:start]`, and only when it is non-empty. */
  function Prefix(s: string, pos: nat, start: nat): (r: seq<string>)
    requires pos <= start <= |s|
    ensures Concat(r) == s[pos..start]
    ensures |r| <= 1 && forall k :: 0 <= k < |r| ==> r[k] != []
  {
    if pos != start then [s[pos..start]] else []
  }

  /** The first index at or after `i` that is not whitespace, or `|s|`:
      where a greedy `\s*` starting at `i` stops. */
  function SkipSpace(s: string, i: nat): (k: nat)
    requires i <= |s|
    ensures i <= k <= |s|
    ensures k < |s| ==> !IsSpace(s[k])
    decreases |s| - i
  {
    if i == |s| || !IsSpace(s[i]) then i else SkipSpace(s, i + 1)
  }

  /** Everything `SkipSpace` steps over is whitespace. */
  lemma {:induction false} SkipSpaceRun(s: string, i: nat)
    requires i <= |s|
    ensures forall p :: i <= p < SkipSpace(s, i) ==> IsSpace(s[p])
    decreases |s| - i
  {
    if i < |s| && IsSpace(s[i]) {
      SkipSpaceRun(s, i + 1);
    }
  }

  /** A greedy `\s*` from `i` runs at least over any whitespace run
      that starts at `i`. */
  lemma {:induction false} SkipSpacePast(s: string, i: nat, k: nat)
    requires i <= k <= |s|
    requires forall p :: i <= p < k ==> IsSpace(s[p])
    ensures k <= SkipSpace(s, i)
    decreases k - i
  {
    if i < k {
      SkipSpacePast(s, i + 1, k);
    }
  }

  /** A greedy `\s*` from `i` stops exactly at the end of a whitespace
      run from `i` that is followed by a non-space or the end. */
  lemma SkipSpaceAt(s: string, i: nat, k: nat)
    requires i <= k <= |s|
    requires forall p :: i <= p < k ==> IsSpace(s[p])
    requires k == |s| || !IsSpace(s[k])
    ensures SkipSpace(s, i) == k
  {
    SkipSpacePast(s, i, k);
    SkipSpaceRun(s, i);
  }

  /** The first ASCII whitespace at or after `i`: `re.compile("\s").search(s, i)`. */
  function FindSpace(s: string, i: nat): (r: Option<nat>)
    ensures r.Some? ==> i <= r.value < |s| && IsSpace(s[r.value])
    ensures r.Some? ==> forall p :: i <= p < r.value ==> !IsSpace(s[p])
    ensures r.None? ==> forall p :: i <= p < |s| ==> !IsSpace(s[p])
    decreases |s| - i
  {
    if i >= |s| then None
    else if IsSpace(s[i]) then Some(i)
    else FindSpace(s, i + 1)
  }
}
