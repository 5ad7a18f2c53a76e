/** The string operations the pipeline applies: `str.lower()` for the
    semester match, and `str.strip()` with `str.replace(p, '')` for removing
    Markdown code fences from the model's reply. */
module Text {
  import opened Seqs

  /** Characters for which Python's `str.isspace()` holds: what `strip()` removes. */
  predicate IsSpace(c: char) {
    || c == ' '
    || '\t' <= c <= '\r'
    || '\U{1c}' <= c <= '\U{1f}'
    || c == '\U{85}' || c == '\U{a0}' || c == '\U{1680}'
    || '\U{2000}' <= c <= '\U{200a}'
    || c == '\U{2028}' || c == '\U{2029}' || c == '\U{202f}' || c == '\U{205f}'
    || c == '\U{3000}'
  }

  /** `s.lstrip()`: drops the leading whitespace. */
  function TrimStart(s: string): (r: string)
    ensures |r| <= |s| && r == s[|s| - |r|..]
    ensures forall i :: 0 <= i < |s| - |r| ==> IsSpace(s[i])
    ensures r == [] || !IsSpace(r[0])
  {
    if s != [] && IsSpace(s[0]) then TrimStart(s[1..]) else s
  }

  /** `s.rstrip()`: drops the trailing whitespace. */
  function TrimEnd(s: string): (r: string)
    ensures |r| <= |s| && r == s[..|r|]
    ensures forall i :: |r| <= i < |s| ==> IsSpace(s[i])
    ensures r == [] || !IsSpace(r[|r| - 1])
  {
    if s != [] && IsSpace(s[|s| - 1]) then TrimEnd(s[..|s| - 1]) else s
  }

  /** `s.strip()`: never longer than `s`, and neither starts nor ends with
      whitespace. */
  function Strip(s: string): (r: string)
    ensures |r| <= |s|
    ensures r == [] || (!IsSpace(r[0]) && !IsSpace(r[|r| - 1]))
  {
    var t := TrimStart(s);
    var r := TrimEnd(t);
    assert r == t[..|r|];
    r
  }

  /** Trimming the end of the suffix `s[a..]` leaves an infix of `s`
      followed only by whitespace. */
  lemma TrimEndOfSuffix(s: string, a: nat)
    requires a <= |s|
    ensures a + |TrimEnd(s[a..])| <= |s|
    ensures TrimEnd(s[a..]) == s[a..a + |TrimEnd(s[a..])|]
    ensures forall i :: a + |TrimEnd(s[a..])| <= i < |s| ==> IsSpace(s[i])
  {
    var t := s[a..];
    var r := TrimEnd(t);
    forall i | a + |r| <= i < |s|
      ensures IsSpace(s[i])
    {
      assert s[i] == t[i - a];
    }
  }

  /** `s.strip()` is the infix of `s` left after removing the whitespace at
      both ends. */
  lemma StripSpec(s: string)
    ensures exists a, b :: (0 <= a <= b <= |s| && Strip(s) == s[a..b] &&
                            (forall i :: 0 <= i < a ==> IsSpace(s[i])) &&
                            (forall i :: b <= i < |s| ==> IsSpace(s[i])))
  {
    var t := TrimStart(s);
    var a := |s| - |t|;
    assert Strip(s) == TrimEnd(t);
    var b := a + |TrimEnd(t)|;
    assert b <= |s| && TrimEnd(t) == s[a..b] && forall i :: b <= i < |s| ==> IsSpace(s[i]) by {
      assert t == s[a..];
      TrimEndOfSuffix(s, a);
    }
    assert 0 <= a <= b <= |s| && Strip(s) == s[a..b] &&
           (forall i :: 0 <= i < a ==> IsSpace(s[i])) &&
           (forall i :: b <= i < |s| ==> IsSpace(s[i]));
  }

  /** `s` begins with `p`. */
  predicate StartsWith(s: string, p: string) {
    |p| <= |s| && s[..|p|] == p
  }

  /** `p in s`: `p` occurs somewhere in `s`. */
  predicate Contains(s: string, p: string) {
    |p| <= |s| && (StartsWith(s, p) || Contains(s[1..], p))
  }

  /** `s.replace(p, '')`: scans left to right and deletes each
      non-overlapping occurrence of `p`. */
  function RemoveAll(s: string, p: string): (r: string)
    requires p != []
    ensures |r| <= |s|
    ensures forall c :: c in r ==> c in s
    ensures IsSubsequence(r, s)
    decreases |s|
  {
    if |s| < |p| then
      SubsequenceRefl(s);
      s
    else if StartsWith(s, p) then
      var r := RemoveAll(s[|p|..], p);
      SubsequenceOfSuffix(r, s, |p|);
      r
    else
      var rest := RemoveAll(s[1..], p);
      assert ([s[0]] + rest)[1..] == rest;
      [s[0]] + rest
  }

  /** Text that does not contain the first character of `p` passes through
      the deletion unchanged, ahead of whatever follows it. */
  lemma {:induction false} RemoveAllPrefixAbsent(t: string, u: string, p: string)
    requires p != [] && p[0] !in t
    ensures RemoveAll(t + u, p) == t + RemoveAll(u, p)
    decreases |t|
  {
    if t != [] {
      var s := t + u;
      if |s| >= |p| {
        assert s[0] == t[0] && t[0] in t;
        assert !StartsWith(s, p);
        assert s[1..] == t[1..] + u;
        RemoveAllPrefixAbsent(t[1..], u, p);
        assert t == [t[0]] + t[1..];
      } else {
        assert RemoveAll(u, p) == u;
      }
    } else {
      assert t + u == u;
    }
  }

  /** Text without the first character of `p` has nothing to delete. */
  lemma {:induction false} RemoveAllAbsent(s: string, p: string)
    requires p != [] && p[0] !in s
    ensures RemoveAll(s, p) == s
    decreases |s|
  {
    if |s| >= |p| {
      assert s[0] in s;
      assert !StartsWith(s, p);
      RemoveAllAbsent(s[1..], p);
      assert s == [s[0]] + s[1..];
    }
  }

  const Fence: string := "```"
  const JsonFence: string := "```json"

  /** A result of deleting every fence starts with a backtick only if the
      input does. */
  lemma FenceFreeHead(u: string)
    ensures StartsWith(RemoveAll(u, Fence), "`") ==> StartsWith(u, "`")
  {
  }

  /** A result of deleting every fence starts with two backticks only if the
      input does. */
  lemma FenceFreeHead2(t: string)
    ensures StartsWith(RemoveAll(t, Fence), "``") ==> StartsWith(t, "``")
  {
    if |t| >= 3 && !StartsWith(t, Fence) {
      FenceFreeHead(t[1..]);
      assert RemoveAll(t, Fence)[1..] == RemoveAll(t[1..], Fence);
    }
  }

  /** Deleting every fence from left to right leaves no fence behind: the
      characters on either side of a deleted fence never join into a new one. */
  lemma {:induction false} NoFenceAfterRemoval(s: string)
    ensures !Contains(RemoveAll(s, Fence), Fence)
    decreases |s|
  {
    if |s| >= |Fence| {
      if StartsWith(s, Fence) {
        NoFenceAfterRemoval(s[3..]);
      } else {
        var rest := RemoveAll(s[1..], Fence);
        var r := [s[0]] + rest;
        assert RemoveAll(s, Fence) == r;
        NoFenceAfterRemoval(s[1..]);
        assert r[1..] == rest;
        FenceFreeHead2(s[1..]);
      }
    }
  }

  /** The model reply with code fences removed:
      `text.strip().replace('```json', '').replace('```', '')`. The result
      holds no fence, and a reply without backticks is only trimmed. */
  function CleanFences(raw: string): (r: string)
    ensures !Contains(r, Fence)
    ensures '`' !in Strip(raw) ==> r == Strip(raw)
  {
    var stripped := Strip(raw);
    var unjson := RemoveAll(stripped, JsonFence);
    NoFenceAfterRemoval(unjson);
    if '`' !in stripped then
      RemoveAllAbsent(stripped, JsonFence);
      RemoveAllAbsent(stripped, Fence);
      RemoveAll(unjson, Fence)
    else
      RemoveAll(unjson, Fence)
  }

  /** A text that neither starts nor ends with whitespace is its own
      `strip()`. */
  lemma StripUntrimmed(s: string)
    requires s != [] && !IsSpace(s[0]) && !IsSpace(s[|s| - 1])
    ensures Strip(s) == s
  {
    assert TrimStart(s) == s;
    assert TrimEnd(s) == s;
  }

  /** `strip()` is idempotent: a stripped text has nothing left to remove. */
  lemma StripIdempotent(s: string)
    ensures Strip(Strip(s)) == Strip(s)
  {
    var r := Strip(s);
    if r != [] {
      StripUntrimmed(r);
    } else {
      assert TrimStart(r) == [] && TrimEnd([]) == [];
    }
  }

  /** A reply wrapped in a "```json" fence and a closing "```" cleans to
      exactly what lies between them, when that holds no backtick: the case
      the fence removal exists for. */
  lemma CleanFencedReply(t: string)
    requires '`' !in t
    ensures CleanFences(JsonFence + t + Fence) == t
  {
    var s := JsonFence + t + Fence;
    StripUntrimmed(s);
    assert StartsWith(s, JsonFence);
    assert s[|JsonFence|..] == t + Fence;
    RemoveAllPrefixAbsent(t, Fence, JsonFence);
    assert RemoveAll(Fence, JsonFence) == Fence;
    assert RemoveAll(s, JsonFence) == t + Fence;
    RemoveAllPrefixAbsent(t, Fence, Fence);
    assert StartsWith(Fence, Fence) && Fence[|Fence|..] == [];
    assert RemoveAll(Fence, Fence) == [];
    assert t + [] == t;
  }

  /** ASCII `str.lower()` of one character. */
  function LowerChar(c: char): char {
    if 'A' <= c <= 'Z' then (c as int - 'A' as int + 'a' as int) as char else c
  }

  /** `s.lower()`, for ASCII letters. */
  function Lower(s: string): string {
    seq(|s|, i requires 0 <= i < |s| => LowerChar(s[i]))
  }
}
