/** The lowercase wire form of a name, and the fixed buffer it is packed into (src/collections.rs). */
module WireNames {
  import opened Common

  type Label = seq<byte>

  /** A name as its labels, without the root label; `[]` is the root. */
  type Labels = seq<Label>

  function LowerByte(b: byte): byte { if 65 <= b <= 90 then b + 32 else b }

  function Lower(l: Label): Label { seq(|l|, i requires 0 <= i < |l| => LowerByte(l[i])) }

  function LowerAll(n: Labels): Labels { seq(|n|, i requires 0 <= i < |n| => Lower(n[i])) }

  predicate ShortLabels(n: Labels) { forall i :: 0 <= i < |n| ==> |n[i]| <= 63 }

  function WireLength(n: Labels): nat {
    if n == [] then 0 else 1 + |n[0]| + WireLength(n[1..])
  }

  /** The size limits of section 2.3.4 of RFC 1035, with the room the buffer has for labels. */
  predicate Fits(n: Labels) {
    ShortLabels(n) && WireLength(n) <= 255 && |n| <= 128
  }

  /** A length as one octet. */
  function Octet(n: nat): byte { n % 256 }

  /** Length-prefixed labels (section 3.1 of RFC 1035), without the root label. */
  function Encode(n: Labels): (w: seq<byte>)
    ensures |w| == WireLength(n)
  {
    if n == [] then [] else [Octet(|n[0]|)] + n[0] + Encode(n[1..])
  }

  lemma {:induction false} WireLengthConcat(a: Labels, b: Labels)
    ensures WireLength(a + b) == WireLength(a) + WireLength(b)
  {
    if a == [] {
      assert a + b == b;
    } else {
      assert (a + b)[1..] == a[1..] + b;
      WireLengthConcat(a[1..], b);
    }
  }

  lemma WireLengthOne(l: Label)
    ensures WireLength([l]) == 1 + |l|
    ensures Encode([l]) == [Octet(|l|)] + l
  {
  }

  lemma {:induction false} EncodeConcat(a: Labels, b: Labels)
    ensures Encode(a + b) == Encode(a) + Encode(b)
  {
    if a == [] {
      assert a + b == b;
    } else {
      var head := [Octet(|a[0]|)] + a[0];
      var tail := a[1..] + b;
      assert (a + b)[1..] == tail;
      EncodeConcat(a[1..], b);
      SplitHead(a + b);
      SplitHead(a);
      assert head + (Encode(a[1..]) + Encode(b)) == head + Encode(a[1..]) + Encode(b);
    }
  }

  lemma SplitHead(n: Labels)
    requires n != []
    ensures Encode(n) == [Octet(|n[0]|)] + n[0] + Encode(n[1..])
  {
  }

  /** The encoding of the labels from `level` on is the buffer from that label's offset on. */
  lemma EncodeSuffix(n: Labels, level: nat)
    requires level <= |n|
    ensures WireLength(n[..level]) <= WireLength(n)
    ensures Encode(n)[WireLength(n[..level])..] == Encode(n[level..])
  {
    assert n == n[..level] + n[level..];
    EncodeConcat(n[..level], n[level..]);
  }

  /** Two names with the same wire form are the same name. */
  lemma {:induction false} EncodeInjective(a: Labels, b: Labels)
    requires ShortLabels(a) && ShortLabels(b) && Encode(a) == Encode(b)
    ensures a == b
  {
    if a != [] && b != [] {
      var w := Encode(a);
      assert w[0] == |a[0]| == |b[0]|;
      assert a[0] == w[1..1 + |a[0]|] == b[0];
      assert Encode(a[1..]) == w[1 + |a[0]|..] == Encode(b[1..]);
      EncodeInjective(a[1..], b[1..]);
      assert a == [a[0]] + a[1..] && b == [b[0]] + b[1..];
    }
  }

  lemma {:induction false} LowerKeepsLength(n: Labels)
    ensures |LowerAll(n)| == |n| && WireLength(LowerAll(n)) == WireLength(n)
    ensures Fits(LowerAll(n)) <==> Fits(n)
    ensures ShortLabels(LowerAll(n)) <==> ShortLabels(n)
  {
    if n != [] {
      assert LowerAll(n)[1..] == LowerAll(n[1..]);
      LowerKeepsLength(n[1..]);
    }
    assert forall i :: 0 <= i < |n| ==> |LowerAll(n)[i]| == |n[i]|;
  }

  predicate IsUpper(b: byte) { 65 <= b <= 90 }

  /** Octets that are equal, or the two cases of one letter. */
  predicate SameLetter(a: byte, b: byte) { a == b || (IsUpper(a) && b == a + 32) || (IsUpper(b) && a == b + 32) }

  predicate SameLabel(l: Label, m: Label) { |l| == |m| && forall i :: 0 <= i < |l| ==> SameLetter(l[i], m[i]) }

  /** Names that differ at most in letter case. */
  predicate SameButCase(n: Labels, m: Labels) { |n| == |m| && forall i :: 0 <= i < |n| ==> SameLabel(n[i], m[i]) }

  lemma LowerByteIff(a: byte, b: byte)
    ensures LowerByte(a) == LowerByte(b) <==> SameLetter(a, b)
    ensures !IsUpper(LowerByte(a)) && SameLetter(LowerByte(a), a)
  {
  }

  lemma LowerIff(l: Label, m: Label)
    ensures Lower(l) == Lower(m) <==> SameLabel(l, m)
  {
    hide LowerByte, SameLetter;
    forall i | 0 <= i < |l| && i < |m| ensures Lower(l)[i] == Lower(m)[i] <==> SameLetter(l[i], m[i]) {
      LowerByteIff(l[i], m[i]);
    }
    assert |Lower(l)| == |l| && |Lower(m)| == |m|;
  }

  lemma LowerIsLower(l: Label)
    ensures SameLabel(Lower(l), l) && forall i :: 0 <= i < |l| ==> !IsUpper(Lower(l)[i])
  {
  }

  /** Lowering changes letter case only and leaves no upper case, and names are lowered to the same exactly when they
      differ in letter case only. */
  lemma LowerAllIff(n: Labels, m: Labels)
    ensures LowerAll(n) == LowerAll(m) <==> SameButCase(n, m)
    ensures SameButCase(LowerAll(n), n)
    ensures forall i, j :: 0 <= i < |n| && 0 <= j < |n[i]| ==> !IsUpper(LowerAll(n)[i][j])
  {
    hide LowerByte, Lower, SameLabel, IsUpper;
    forall i | 0 <= i < |n| && i < |m| ensures LowerAll(n)[i] == LowerAll(m)[i] <==> SameLabel(n[i], m[i]) {
      LowerIff(n[i], m[i]);
    }
    assert |LowerAll(n)| == |n| && |LowerAll(m)| == |m|;
    forall i | 0 <= i < |n|
      ensures SameLabel(LowerAll(n)[i], n[i]) && |LowerAll(n)[i]| == |n[i]|
      ensures forall j :: 0 <= j < |n[i]| ==> !IsUpper(LowerAll(n)[i][j])
    {
      LowerIsLower(n[i]);
      LowerLength(n[i]);
    }
  }

  lemma LowerLength(l: Label)
    ensures |Lower(l)| == |l|
  {
  }

  lemma LowerIdempotent(n: Labels)
    ensures LowerAll(LowerAll(n)) == LowerAll(n)
  {
    forall i | 0 <= i < |n| ensures Lower(Lower(n[i])) == Lower(n[i]) {
    }
  }

  lemma FitsSuffix(n: Labels, level: nat)
    requires Fits(n) && level <= |n|
    ensures Fits(n[level..])
  {
    assert n == n[..level] + n[level..];
    WireLengthConcat(n[..level], n[level..]);
  }

  class WireName {
    const bytes: array<byte>
    var len: nat
    const starts: array<byte>
    var labels: nat

    constructor ()
      ensures bytes.Length == 255 && starts.Length == 128 && len == 0 && labels == 0
      ensures fresh(bytes) && fresh(starts)
    {
      bytes := new byte[255](_ => 0);
      starts := new byte[128](_ => 0);
      len, labels := 0, 0;
    }

    /** The buffer holds the wire form of `name`, and `starts` the offset of each label. */
    ghost predicate Holds(name: Labels)
      reads this, bytes, starts
    {
      && ShortLabels(name)
      && bytes.Length == 255 && starts.Length == 128
      && labels == |name| <= 128
      && len == WireLength(name) <= 255
      && bytes[..len] == Encode(name)
      && (forall i {:trigger starts[i]} :: 0 <= i < labels ==> starts[i] == WireLength(name[..i]))
    }

    /** Appends one label, lowercased; the caller has checked that it fits. */
    method Append(text: Label, ghost name: Labels)
      requires Holds(name)
      requires |text| <= 63 && len + 1 + |text| <= 255 && labels < 128
      modifies this, bytes, starts
      ensures Holds(name + [Lower(text)])
    {
      var end := len + 1 + |text|;
      starts[labels] := len as byte;
      bytes[len] := |text| as byte;
      forall i | 0 <= i < |text| {
        bytes[len + 1 + i] := LowerByte(text[i]);
      }
      ghost var one := [Lower(text)];
      WireLengthConcat(name, one);
      EncodeConcat(name, one);
      WireLengthOne(Lower(text));
      assert bytes[..end] == Encode(name) + ([Octet(|text|)] + Lower(text));
      assert forall i :: 0 <= i <= |name| ==> (name + one)[..i] == name[..i];
      len := end;
      labels := labels + 1;
    }

    /** Packs the labels, or nothing when they are beyond the limits. No offset or length is cut off. */
    static method New(name: Labels) returns (r: Option<WireName>)
      ensures r.Some? <==> Fits(name)
      ensures r.Some? ==> fresh(r.value) && r.value.Holds(LowerAll(name))
    {
      var w := new WireName();
      assert LowerAll(name[..0]) == [];
      for k := 0 to |name|
        invariant fresh(w) && fresh(w.bytes) && fresh(w.starts)
        invariant w.Holds(LowerAll(name[..k]))
        invariant ShortLabels(name[..k]) && w.len == WireLength(name[..k])
      {
        var text := name[k];
        assert name[..k + 1] == name[..k] + [text] && name == name[..k + 1] + name[k + 1..];
        WireLengthOne(text);
        WireLengthConcat(name[..k], [text]);
        WireLengthConcat(name[..k + 1], name[k + 1..]);
        if w.len + 1 + |text| > 255 || w.labels == 128 || |text| > 63 {
          return None;
        }
        w.Append(text, LowerAll(name[..k]));
        assert LowerAll(name[..k]) + [Lower(text)] == LowerAll(name[..k + 1]);
        LowerKeepsLength(name[..k + 1]);
      }
      assert name[..|name|] == name;
      r := Some(w);
    }

    /** The wire form without the first `level` labels: the encoding of that label suffix, the root's past the end. */
    method Parent(level: nat, ghost name: Labels) returns (wire: seq<byte>)
      requires Holds(name)
      ensures wire == Encode(name[Min(level, |name|)..])
    {
      if level < labels {
        EncodeSuffix(name, level);
        wire := bytes[starts[level]..len];
      } else {
        wire := [];
      }
    }
  }
}
