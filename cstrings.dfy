/**
  Strings that cross the C boundary. A pointer is either null or the memory
  that starts at it; the C caller promises a NUL terminator somewhere in it.
 */
module CStrings {

  const Nul: char := '\0'

  /** A `*const c_char`: null, or the characters stored from its address on. */
  datatype CPtr = Null | Ptr(memory: seq<char>)

  /** What `CStr::from_ptr` demands of the caller: a non-null pointer reaches a NUL. */
  predicate Terminated(p: CPtr) {
    p.Null? || Nul in p.memory
  }

  /** The characters before the first NUL. */
  function UntilNul(m: seq<char>): (s: string)
    requires Nul in m
    ensures |s| < |m| && s == m[..|s|] && m[|s|] == Nul
    ensures Nul !in s
  {
    if m[0] == Nul then [] else [m[0]] + UntilNul(m[1..])
  }

  /** `parse_c_string`: a null pointer reads as the empty string; otherwise the
      text up to the terminator. */
  function ParseCString(p: CPtr): (s: string)
    requires Terminated(p)
    ensures Nul !in s
    ensures p.Null? ==> s == []
    ensures p.Ptr? ==> |s| < |p.memory| && s == p.memory[..|s|] && p.memory[|s|] == Nul
  {
    if p.Null? then [] else UntilNul(p.memory)
  }

  /** Only a null pointer and a pointer at a terminator give the empty string. */
  lemma EmptyOnlyForNullOrNul(p: CPtr)
    requires Terminated(p)
    ensures ParseCString(p) == [] <==> p.Null? || p.memory[0] == Nul
  {
  }

  /** The text stops at the first terminator, wherever it is. */
  lemma {:induction false} StopsAtFirstNul(m: seq<char>, k: nat)
    requires k < |m| && m[k] == Nul && Nul !in m[..k]
    ensures UntilNul(m) == m[..k]
  {
    if k > 0 {
      assert m[0] == m[..k][0];
      assert m[1..][..k - 1] == m[1..k];
      assert Nul !in m[1..][..k - 1];
      StopsAtFirstNul(m[1..], k - 1);
      assert [m[0]] + m[1..k] == m[..k];
    }
  }

  /** A caller's NUL-free text followed by a terminator reads back unchanged. */
  lemma ParseTerminated(s: string, tail: seq<char>)
    requires Nul !in s
    ensures ParseCString(Ptr(s + [Nul] + tail)) == s
  {
    var m := s + [Nul] + tail;
    assert m[..|s|] == s;
    StopsAtFirstNul(m, |s|);
  }
}
