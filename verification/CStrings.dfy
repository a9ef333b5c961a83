/** NUL-terminated strings in byte buffers. */
module CStrings {
  import opened CTypes

  const SPACE: U8 := 32

  /** The bytes before the first NUL. */
  function CString(s: seq<U8>): (t: seq<U8>)
    ensures t <= s && 0 !in t
    ensures |t| < |s| ==> s[|t|] == 0
  {
    if s == [] || s[0] == 0 then [] else [s[0]] + CString(s[1..])
  }

  /** The buffer holds t followed by a NUL at index a. */
  predicate TerminatedAt(s: seq<U8>, a: nat, t: seq<U8>) {
    a + |t| < |s| && s[a..a + |t|] == t && s[a + |t|] == 0 && 0 !in t
  }

  lemma {:induction false} CStringOf(s: seq<U8>, t: seq<U8>)
    requires t + [0] <= s && 0 !in t
    ensures CString(s) == t
  {
    if t == [] {
      assert s[0] == (t + [0])[0];
    } else {
      assert s[0] == (t + [0])[0] == t[0];
      assert t[1..] + [0] == (t + [0])[1..] && (t + [0])[1..] <= s[1..];
      CStringOf(s[1..], t[1..]);
    }
  }

  lemma TerminatedReads(s: seq<U8>, a: nat, t: seq<U8>)
    requires TerminatedAt(s, a, t)
    ensures CString(s[a..]) == t
  {
    assert t + [0] == s[a..][..|t| + 1];
    CStringOf(s[a..], t);
  }

  /** Anything after a NUL is irrelevant. */
  lemma {:induction false} NulAt(s: seq<U8>, k: nat)
    requires k < |s| && s[k] == 0
    ensures CString(s) == CString(s[..k])
  {
    if k > 0 && s[0] != 0 {
      NulAt(s[1..], k - 1);
      assert s[1..][..k - 1] == s[..k][1..];
    }
  }
}
