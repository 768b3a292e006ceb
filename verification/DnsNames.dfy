/**
 Domain names in their two forms: dotted text, and the packet form in which every label
 follows a byte holding its length. The terminating zero byte is not part of a `Name`.
 */
module DnsNames {
  import opened Common

  type Name = seq<Byte>

  const MAX_DOMAIN_NAME: nat := 63
  const NAME_BUFFER: nat := MAX_DOMAIN_NAME + 1
  const DOT: Byte := 46

  /** The bytes of a buffer in front of its first zero: what the string functions see of it. */
  function CString(s: Name): (r: Name)
    ensures 0 !in r
  {
    if s == [] || s[0] == 0 then [] else [s[0]] + CString(s[1..])
  }

  lemma {:induction false} CStringIs(s: Name, n: nat)
    requires n <= |s| && (forall i :: 0 <= i < n ==> s[i] != 0) && (n < |s| ==> s[n] == 0)
    ensures CString(s) == s[..n]
    decreases n
  {
    if n > 0 {
      CStringIs(s[1..], n - 1);
    }
  }

  /** Letters, digits, underscore, minus and dot. */
  predicate HostChar(c: Byte) {
    97 <= c <= 122 || 65 <= c <= 90 || 48 <= c <= 57 || c == 95 || c == 45 || c == DOT
  }

  /** What the command line accepts as the name of a host or of the domain. */
  predicate DomainText(name: Name) {
    |name| <= MAX_DOMAIN_NAME && forall i :: 0 <= i < |name| ==> HostChar(name[i])
  }

  /** The number of bytes from position `p` to the next dot, or to the end. */
  function LabelLength(name: Name, p: nat): nat
    requires p <= |name|
    decreases |name| - p
  {
    if p == |name| || name[p] == DOT then 0 else 1 + LabelLength(name, p + 1)
  }

  /** A label starts at the front and after every dot; there the packet form holds its length. */
  function CellOf(name: Name, p: nat): Byte
    requires p <= |name|
  {
    if p == 0 || name[p - 1] == DOT then LabelLength(name, p) % 256 else name[p - 1]
  }

  /** The packet form of a dotted name. */
  function LabelForm(name: Name): (r: Name)
    ensures |r| == |name| + 1
  {
    seq(|name| + 1, p requires 0 <= p <= |name| => CellOf(name, p))
  }

  lemma {:induction false} LabelLengthAtMost(name: Name, p: nat)
    requires p <= |name|
    ensures LabelLength(name, p) <= |name| - p
    decreases |name| - p
  {
    if p < |name| && name[p] != DOT {
      LabelLengthAtMost(name, p + 1);
    }
  }

  /** No label is empty: neither end is a dot and no two dots meet. */
  ghost predicate NoEmptyLabel(name: Name) {
    && name != [] && name[0] != DOT && name[|name| - 1] != DOT
    && forall i, j :: 0 <= i < j < |name| && j == i + 1 ==> name[i] != DOT || name[j] != DOT
  }

  /** The length bytes of `s` lead exactly to its end. */
  predicate WellFormed(s: Name) {
    s != [] ==> s[0] > 0 && 1 + s[0] <= |s| && WellFormed(s[1 + s[0]..])
  }

  /** No label contains a dot. */
  predicate NoDotInLabel(s: Name)
    requires WellFormed(s)
  {
    s != [] ==> DOT !in s[1..1 + s[0]] && NoDotInLabel(s[1 + s[0]..])
  }

  /** The sum of the label lengths. */
  function Total(s: Name): nat
    requires WellFormed(s)
  {
    if s == [] then 0 else s[0] + Total(s[1 + s[0]..])
  }

  /** The labels of `s`, each followed by a dot. */
  function Dotted(s: Name): Name
    requires WellFormed(s)
  {
    if s == [] then [] else s[1..1 + s[0]] + [DOT] + Dotted(s[1 + s[0]..])
  }

  lemma {:induction false} DottedOn(out: Name, s: Name, first: Name, tail: Name, rest: Name)
    requires WellFormed(s) && s != [] && first == s[1..1 + s[0]] && tail == s[1 + s[0]..] && rest == Dotted(tail)
    ensures out + Dotted(s) == (out + first + [DOT]) + rest && Total(s) == s[0] + Total(tail)
    ensures (out + first + [DOT])[|out + first + [DOT]| - 1] == DOT
  {
    Regroup(out, first, [DOT], rest);
  }

  lemma {:induction false} Regroup(a: Name, b: Name, c: Name, d: Name)
    ensures a + (b + c + d) == (a + b + c) + d
  {
  }

  /**
   The dotted form of a packet name; fails when the labels are too long together. `cut` is
   where the buffer is cut off in place of the last dot: in front of its start if and only if the
   name is the root name, which has no label and so no dot.
   */
  method RealName(s: Name) returns (r: Option<Name>, cut: int)
    requires WellFormed(s)
    ensures r.Some? <==> Total(s) < MAX_DOMAIN_NAME
    ensures r.Some? && s != [] ==> Dotted(s) == r.value + [DOT]
    ensures s == [] ==> r == Some([])
    ensures r.Some? ==> cut == |Dotted(s)| - 1 && (cut < 0 <==> s == [])
  {
    var out: Name, total, ptr := [], 0, s;
    assert [] + Dotted(s) == Dotted(s);
    while ptr != []
      invariant WellFormed(ptr) && Dotted(s) == out + Dotted(ptr)
      invariant (ptr != s ==> out != []) && (out != [] ==> out[|out| - 1] == DOT)
      invariant total + Total(ptr) == Total(s) && total < MAX_DOMAIN_NAME
    {
      var first, tail := ptr[1..1 + ptr[0]], ptr[1 + ptr[0]..];
      total := total + ptr[0];
      if total >= MAX_DOMAIN_NAME {
        return None, 0;
      }
      DottedOn(out, ptr, first, tail, Dotted(tail));
      out, ptr := out + first + [DOT], tail;
    }
    cut := |out| - 1;
    if cut < 0 {
      return Some([]), cut;
    }
    assert out == out[..cut] + [DOT];
    return Some(out[..cut]), cut;
  }

  lemma {:induction false} LabelLengthIs(name: Name, p: nat, n: nat)
    requires p <= n <= |name| && (n < |name| ==> name[n] == DOT)
    requires forall k :: p <= k < n ==> name[k] != DOT
    ensures LabelLength(name, p) == n - p
    decreases n - p
  {
    if p < n {
      LabelLengthIs(name, p + 1, n);
    }
  }

  lemma {:induction false} LabelLengthShift(name: Name, d: nat, p: nat)
    requires d + p <= |name|
    ensures LabelLength(name, d + p) == LabelLength(name[d..], p)
    decreases |name| - p
  {
    if d + p < |name| {
      LabelLengthShift(name, d, p + 1);
    }
  }

  lemma {:induction false} FirstLabelIs(first: Name, tail: Name)
    requires DOT !in first
    ensures LabelForm(first) == [|first| % 256] + first
    ensures LabelForm(first + [DOT] + tail) == [|first| % 256] + first + LabelForm(tail)
  {
    LabelLengthIs(first, 0, |first|);
    var name, d := first + [DOT] + tail, |first| + 1;
    LabelLengthIs(name, 0, |first|);
    assert name[d..] == tail;
    forall p | d <= p <= |name| ensures CellOf(name, p) == CellOf(tail, p - d) {
      LabelLengthShift(name, d, p - d);
    }
  }

  /**
   Writes the packet form of a dotted name and a terminating zero into `rn`, in one pass:
   `start` is where the length of the current label goes once it is known. The `n + 1` bytes
   written fit the buffer the source provides if and only if the name is below the longest.
   */
  method BuildName(name: Name, rn: array<Byte>) returns (n: nat)
    requires |name| + 2 <= rn.Length
    modifies rn
    ensures n == |name| + 1 && rn[..n] == LabelForm(name) && rn[n] == 0
    ensures forall k :: n < k < rn.Length ==> rn[k] == old(rn[k])
    ensures n + 1 <= NAME_BUFFER <==> |name| < MAX_DOMAIN_NAME
  {
    var i, start, cnt := 0, 0, 0;
    n := 1;
    while i < |name|
      invariant n == i + 1 <= |name| + 1 && cnt == i - start && start <= i
      invariant start == 0 || name[start - 1] == DOT
      invariant forall k :: start <= k < i ==> name[k] != DOT
      invariant forall p :: 0 <= p < n && p != start ==> rn[p] == CellOf(name, p)
      invariant forall k :: |name| + 1 < k < rn.Length ==> rn[k] == old(rn[k])
    {
      if name[i] != DOT {
        cnt, rn[n] := cnt + 1, name[i];
      } else {
        LabelLengthIs(name, start, i);
        rn[start], cnt, start := cnt % 256, 0, n;
      }
      i, n := i + 1, n + 1;
    }
    LabelLengthIs(name, start, i);
    rn[start] := cnt % 256;
    rn[n] := 0;
  }

  lemma {:induction false} TailHasNoEmptyLabel(name: Name, n: nat)
    requires NoEmptyLabel(name) && n < |name| && name[n] == DOT
    ensures n > 0 && NoEmptyLabel(name[n + 1..])
  {
    var tail := name[n + 1..];
    assert tail[0] == name[n + 1] && tail[|tail| - 1] == name[|name| - 1];
    forall i, j | 0 <= i < j < |tail| && j == i + 1 ensures tail[i] != DOT || tail[j] != DOT {
      assert name[n + 1 + i] != DOT || name[n + 1 + j] != DOT;
    }
  }

  lemma {:induction false} PacketNameOf(s: Name, first: Name, tail: Name)
    requires 0 < |first| < 256 && s == [|first|] + first + tail
    ensures WellFormed(s) <==> WellFormed(tail)
    ensures WellFormed(s) ==> Dotted(s) == first + [DOT] + Dotted(tail) && Total(s) == |first| + Total(tail)
    ensures WellFormed(s) && DOT !in first ==> (NoDotInLabel(s) <==> NoDotInLabel(tail))
  {
    assert s[1..1 + |first|] == first && s[1 + |first|..] == tail;
  }

  /** The packet name `s` decodes to the dotted name `name`. */
  ghost predicate Decodes(s: Name, name: Name) {
    s != [] && WellFormed(s) && NoDotInLabel(s) && Dotted(s) == name + [DOT]
  }

  lemma {:induction false} DecodesFirst(first: Name, s: Name, name: Name)
    requires 0 < |first| < 256 && DOT !in first
    ensures Decodes([|first|] + first, first) && Total([|first|] + first) == |first|
    ensures Decodes(s, name) ==>
              && Decodes([|first|] + first + s, first + [DOT] + name)
              && Total([|first|] + first + s) == |first| + Total(s)
  {
    assert [|first|] + first == [|first|] + first + [];
    PacketNameOf([|first|] + first, first, []);
    assert first + [DOT] + [] == first + [DOT];
    PacketNameOf([|first|] + first + s, first, s);
    assert first + [DOT] + (name + [DOT]) == first + [DOT] + name + [DOT];
  }

  /** Decoding the packet form of a dotted name gives the name back. */
  lemma {:induction false} LabelFormDecodes(name: Name)
    requires NoEmptyLabel(name) && |name| < MAX_DOMAIN_NAME
    ensures Decodes(LabelForm(name), name) && Total(LabelForm(name)) <= |name|
    decreases |name|
  {
    var n := FirstDot(name, 0);
    if n < |name| {
      TailHasNoEmptyLabel(name, n);
      LabelFormDecodes(name[n + 1..]);
      DecodesLabel(name[..n], name[n + 1..]);
      assert name == name[..n] + [DOT] + name[n + 1..];
    } else {
      assert name[0] != DOT;
      DecodesFirst(name, [], []);
      FirstLabelIs(name, []);
    }
  }

  lemma {:induction false} DecodesLabel(first: Name, tail: Name)
    requires 0 < |first| < 256 && DOT !in first && Decodes(LabelForm(tail), tail)
    ensures var name := first + [DOT] + tail;
            Decodes(LabelForm(name), name) && Total(LabelForm(name)) == |first| + Total(LabelForm(tail))
  {
    DecodesFirst(first, LabelForm(tail), tail);
    FirstLabelIs(first, tail);
  }

  lemma {:induction false} FirstDot(name: Name, p: nat) returns (n: nat)
    requires p <= |name|
    ensures p <= n <= |name| && (n < |name| ==> name[n] == DOT)
    ensures forall k :: p <= k < n ==> name[k] != DOT
    decreases |name| - p
  {
    if p == |name| || name[p] == DOT {
      n := p;
    } else {
      n := FirstDot(name, p + 1);
    }
  }

  /** Different names have different packet forms. */
  lemma {:induction false} LabelFormIsInjective(a: Name, b: Name)
    requires NoEmptyLabel(a) && |a| < MAX_DOMAIN_NAME
    requires NoEmptyLabel(b) && |b| < MAX_DOMAIN_NAME
    requires LabelForm(a) == LabelForm(b)
    ensures a == b
  {
    LabelFormDecodes(a);
    LabelFormDecodes(b);
    DropDot(a, b);
  }

  /** Encoding the dotted form of a packet name gives the packet name back. */
  lemma {:induction false} DottedEncodes(s: Name, name: Name)
    requires Decodes(s, name)
    ensures LabelForm(name) == s
    decreases |s|
  {
    var first, tail := s[1..1 + s[0]], s[1 + s[0]..];
    assert s == [|first|] + first + tail;
    if tail == [] {
      assert Dotted(s) == first + [DOT] + [] == first + [DOT];
      DropDot(name, first);
      FirstLabelIs(first, []);
      assert s == [|first|] + first;
    } else {
      var name' := EndsWithDot(tail);
      assert first + [DOT] + (name' + [DOT]) == (first + [DOT] + name') + [DOT];
      DropDot(name, first + [DOT] + name');
      DottedEncodes(tail, name');
      FirstLabelIs(first, name');
    }
  }

  lemma {:induction false} DropDot(a: Name, b: Name)
    requires a + [DOT] == b + [DOT]
    ensures a == b
  {
    assert a == (a + [DOT])[..|a|] && b == (b + [DOT])[..|b|];
  }

  lemma {:induction false} EndsWithDot(s: Name) returns (name: Name)
    requires WellFormed(s) && s != []
    ensures Dotted(s) == name + [DOT]
  {
    var tail := s[1 + s[0]..];
    name := s[1..1 + s[0]];
    if tail == [] {
      assert name + [DOT] + [] == name + [DOT];
    } else {
      var rest := EndsWithDot(tail);
      assert name + [DOT] + (rest + [DOT]) == (name + [DOT] + rest) + [DOT];
      name := name + [DOT] + rest;
    }
  }

  // Names with empty labels.

  /** An empty label starts at position `p`. */
  predicate EmptyAt(name: Name, p: nat)
    requires p <= |name|
  {
    (p == |name| || name[p] == DOT) && (p == 0 || name[p - 1] == DOT)
  }

  /** In the packet form of a host name the empty labels, and nothing else, are zero bytes. */
  lemma {:induction false} ZeroIffEmpty(name: Name, p: nat)
    requires DomainText(name) && p <= |name|
    ensures LabelForm(name)[p] == 0 <==> EmptyAt(name, p)
  {
    LabelLengthAtMost(name, p);
  }

  /** The first empty label at or behind `p`; one behind the end if there is none. */
  function FirstEmpty(name: Name, p: nat): (r: nat)
    requires p <= |name| + 1
    ensures p <= r <= |name| + 1 && (r <= |name| ==> EmptyAt(name, r))
    ensures forall q :: p <= q < r ==> !EmptyAt(name, q)
    decreases |name| + 1 - p
  {
    if p > |name| || EmptyAt(name, p) then p else FirstEmpty(name, p + 1)
  }

  /** The labels in front of the first empty one. */
  function FirstPart(name: Name): Name {
    var p := FirstEmpty(name, 0);
    if p == 0 then [] else name[..p - 1]
  }

  lemma {:induction false} LabelLengthPrefix(name: Name, n: nat, p: nat)
    requires p <= n <= |name| && (n < |name| ==> name[n] == DOT)
    ensures LabelLength(name[..n], p) == LabelLength(name, p)
    decreases n - p
  {
    if p < n {
      LabelLengthPrefix(name, n, p + 1);
    }
  }

  lemma {:induction false} LabelFormPrefix(name: Name, n: nat)
    requires n <= |name| && (n < |name| ==> name[n] == DOT)
    ensures LabelForm(name[..n]) == LabelForm(name)[..n + 1]
  {
    forall p | 0 <= p <= n ensures CellOf(name[..n], p) == CellOf(name, p) {
      LabelLengthPrefix(name, n, p);
    }
  }

  /** The first part is empty exactly when the first label is, and otherwise has no empty label. */
  lemma {:induction false} FirstPartHasNoEmptyLabel(name: Name)
    ensures FirstPart(name) == [] <==> EmptyAt(name, 0)
    ensures FirstPart(name) != [] ==> NoEmptyLabel(FirstPart(name))
  {
    var p := FirstEmpty(name, 0);
    if p > 0 {
      var first := name[..p - 1];
      assert !EmptyAt(name, 0) && !EmptyAt(name, p - 1);
      forall i, j | 0 <= i < j < |first| && j == i + 1 ensures first[i] != DOT || first[j] != DOT {
        assert !EmptyAt(name, j);
      }
    }
  }

  lemma {:induction false} WholeIsFirstPart(name: Name)
    requires NoEmptyLabel(name)
    ensures FirstPart(name) == name
  {
    assert FirstEmpty(name, 0) == |name| + 1;
  }

  /** The packet form, with none for no name at all. */
  function FormOf(name: Name): Name {
    if name == [] then [] else LabelForm(name)
  }

  /** As a string, the packet form of a host name is that of its first part. */
  lemma {:induction false} StringOfLabelForm(name: Name)
    requires DomainText(name)
    ensures CString(LabelForm(name)) == FormOf(FirstPart(name))
  {
    var s, p := LabelForm(name), FirstEmpty(name, 0);
    forall i | 0 <= i < p ensures s[i] != 0 {
      ZeroIffEmpty(name, i);
    }
    if p <= |name| {
      ZeroIffEmpty(name, p);
    }
    CStringIs(s, p);
    FirstPartHasNoEmptyLabel(name);
    if p > 0 {
      LabelFormPrefix(name, p - 1);
    }
  }

  lemma {:induction false} FormOfIsInjective(a: Name, b: Name)
    requires |a| < MAX_DOMAIN_NAME && |b| < MAX_DOMAIN_NAME
    requires (a != [] ==> NoEmptyLabel(a)) && (b != [] ==> NoEmptyLabel(b))
    ensures FormOf(a) == FormOf(b) ==> a == b
  {
    if a != [] && b != [] && LabelForm(a) == LabelForm(b) {
      LabelFormIsInjective(a, b);
    }
  }

  /** Two host names have the same packet form, as strings, if and only if their first parts are the same. */
  lemma {:induction false} SameStringIff(a: Name, b: Name)
    requires DomainText(a) && |a| < MAX_DOMAIN_NAME && DomainText(b) && |b| < MAX_DOMAIN_NAME
    ensures CString(LabelForm(a)) == CString(LabelForm(b)) <==> FirstPart(a) == FirstPart(b)
  {
    var first, second := FirstPart(a), FirstPart(b);
    StringOfLabelForm(a);
    StringOfLabelForm(b);
    FirstPartHasNoEmptyLabel(a);
    FirstPartHasNoEmptyLabel(b);
    FormOfIsInjective(first, second);
  }

  /** The longest host name the command line accepts does not fit: its packet form takes 65 bytes. */
  lemma {:induction false} LongestNameOverflows(name: Name)
    requires name == seq(MAX_DOMAIN_NAME, i => 97)
    ensures DomainText(name) && |LabelForm(name) + [0]| == NAME_BUFFER + 1
    ensures LabelForm(name) == [63] + name
  {
    FirstLabelIs(name, []);
  }

  /** Reads the string at the start of a buffer that holds a zero. */
  method ReadString(rn: array<Byte>, n: nat) returns (s: Name)
    requires n < rn.Length && rn[n] == 0
    ensures s == CString(rn[..n])
  {
    var i := 0;
    while rn[i] != 0
      invariant 0 <= i <= n && forall k :: 0 <= k < i ==> rn[k] != 0
      decreases n - i
    {
      i := i + 1;
    }
    CStringIs(rn[..n], i);
    assert rn[..n][..i] == rn[..i];
    return rn[..i];
  }
}
