/** `canonicalize_key` of gi/object.cpp: the spelling under which GObject
    looks up property names. A `char` stands for one byte of the UTF-8
    name; multi-byte characters are not decoded. */
module Names {
  /** The characters a canonical key keeps: `-`, ASCII digits and ASCII
      letters. */
  predicate KeyChar(c: char) {
    c == '-' || ('0' <= c <= '9') || ('A' <= c <= 'Z') || ('a' <= c <= 'z')
  }

  /** What `canonicalize_key` makes of one character. */
  function CanonicalChar(c: char): (r: char)
    ensures KeyChar(r) && r != '\0'
    ensures r == c <==> KeyChar(c)
  {
    if KeyChar(c) then c else '-'
  }

  /** `s` with every character outside `[A-Za-z0-9-]` replaced by `-`. */
  function Canonical(s: string): (r: string)
    ensures |r| == |s|
  {
    if s == [] then [] else Canonical(s[..|s| - 1]) + [CanonicalChar(s[|s| - 1])]
  }

  /** The length of the C string held in `buf`: the characters before the
      first NUL, or all of them when there is none. */
  function StrLen(buf: seq<char>): (n: nat)
    ensures n <= |buf| && (n < |buf| ==> buf[n] == '\0')
    ensures forall j :: 0 <= j < n ==> buf[j] != '\0'
  {
    if buf == [] || buf[0] == '\0' then 0 else 1 + StrLen(buf[1..])
  }

  /** Each character is canonicalized on its own. */
  lemma {:induction false} CanonicalAt(s: string, i: nat)
    requires i < |s|
    ensures Canonical(s)[i] == CanonicalChar(s[i])
  {
    if i < |s| - 1 {
      CanonicalAt(s[..|s| - 1], i);
    }
  }

  /** A canonical key keeps `-`, digits and letters where they are and
      has `-` everywhere else. */
  lemma {:induction false} CanonicalKeeps(s: string)
    ensures forall i :: 0 <= i < |s| && KeyChar(s[i]) ==> Canonical(s)[i] == s[i]
    ensures forall i :: 0 <= i < |s| && !KeyChar(s[i]) ==> Canonical(s)[i] == '-'
    ensures forall i :: 0 <= i < |s| ==> KeyChar(Canonical(s)[i])
  {
    forall i | 0 <= i < |s| ensures Canonical(s)[i] == CanonicalChar(s[i]) {
      CanonicalAt(s, i);
    }
  }

  /** Canonicalizing twice is canonicalizing once. */
  lemma {:induction false} CanonicalIdempotent(s: string)
    ensures Canonical(Canonical(s)) == Canonical(s)
  {
    var r := Canonical(s);
    forall i | 0 <= i < |s| ensures Canonical(r)[i] == r[i] {
      CanonicalAt(r, i);
      CanonicalAt(s, i);
    }
  }

  /** Canonicalizing a string that has no NUL yields one with none. */
  lemma CanonicalStrLen(s: string)
    requires '\0' !in s
    ensures StrLen(Canonical(s)) == |s|
  {
    var r := Canonical(s);
    forall i | 0 <= i < |r| ensures r[i] != '\0' {
      CanonicalAt(s, i);
    }
    StrLenFull(r);
  }

  /** A buffer without NUL is a string of its whole length. */
  lemma {:induction false} StrLenFull(buf: seq<char>)
    requires forall j :: 0 <= j < |buf| ==> buf[j] != '\0'
    ensures StrLen(buf) == |buf|
  {
    if buf != [] {
      StrLenFull(buf[1..]);
    }
  }

  /** `canonicalize_key`: rewrites, in place, every character of the C
      string in `key` outside `[A-Za-z0-9-]` to `-`. The terminating NUL
      and whatever follows it are left alone, and the string keeps its
      length. */
  method CanonicalizeKey(key: array<char>)
    modifies key
    ensures key[..StrLen(old(key[..]))] == Canonical(old(key[..])[..StrLen(old(key[..]))])
    ensures key[StrLen(old(key[..]))..] == old(key[..])[StrLen(old(key[..]))..]
    ensures StrLen(key[..]) == StrLen(old(key[..]))
  {
    ghost var buf := key[..];
    ghost var n := StrLen(buf);
    var i := 0;
    while i < key.Length && key[i] != '\0'
      invariant i <= n
      invariant key[..i] == Canonical(buf[..i])
      invariant key[i..] == buf[i..]
      decreases key.Length - i
    {
      assert key[i] == buf[i];
      assert buf[..i + 1][..i] == buf[..i];
      key[i] := CanonicalChar(key[i]);
      assert key[..i + 1] == key[..i] + [key[i]];
      i := i + 1;
    }
    assert i == n;
    assert key[..] == key[..n] + key[n..];
    assert '\0' !in buf[..n];
    CanonicalStrLen(buf[..n]);
    StrLenPrefix(key[..], n);
  }

  /** A fresh NUL-terminated copy of the hyphenated name `s`, canonicalized
      in place by `canonicalize_key`: the key that `resolve_no_info` and
      `is_gobject_property_name` look properties up by. */
  method CanonicalCopy(s: string) returns (key: string)
    requires '\0' !in s
    ensures key == Canonical(s)
  {
    var buf := new char[|s| + 1](i requires 0 <= i <= |s| => if i < |s| then s[i] else '\0');
    assert buf[..][..|s|] == s;
    StrLenFull(s);
    StrLenPrefix(buf[..], |s|);
    CanonicalizeKey(buf);
    key := buf[..|s|];
  }

  /** The length of a C string only depends on the characters up to its
      NUL. */
  lemma {:induction false} StrLenPrefix(buf: seq<char>, n: nat)
    requires n <= |buf| && StrLen(buf[..n]) == n && (n < |buf| ==> buf[n] == '\0')
    ensures StrLen(buf) == n
  {
    if n > 0 {
      assert buf[..n][0] == buf[0];
      assert buf[..n][1..] == buf[1..][..n - 1];
      StrLenPrefix(buf[1..], n - 1);
    }
  }
}
