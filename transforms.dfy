/** reverseBmp and applyFilter: in-place loops over the pixel buffer,
    each proved against a function on the buffer's contents. */
module Transforms {
  import opened LittleEndian
  import opened Headers
  import opened Wrappers

  /** Storing an int into a uint8_t keeps it modulo 2^8. */
  function StoreUint8(x: int): (b: uint8)
    ensures (b - x) % 0x100 == 0
  {
    x % 0x100
  }

  /** `~b` on a byte: b is promoted to int, complemented in two's complement
      (-b - 1) and stored back into a byte, which is 255 - b. */
  function Complement(b: uint8): (r: uint8)
    ensures r == 255 - b
  {
    StoreUint8(-(b as int) - 1)
  }

  /** One greyscale value: the channel sum of promoted ints divided with C's
      integer division (the operands are non-negative, so it agrees with
      Dafny's), capped at 255 by fmin and stored into a byte. The sum is at
      most 765, so neither the cap nor the store changes the mean. */
  function Grey(b: uint8, g: uint8, r: uint8): (v: uint8)
    ensures 3 * v <= b + g + r < 3 * v + 3
  {
    var mean := (b + g + r) / 3;
    StoreUint8(if mean < 255 then mean else 255)
  }

  /** The buffer s after its first n bytes are complemented one by one. */
  function Inverted(s: seq<uint8>, n: nat): (r: seq<uint8>)
    requires n <= |s|
    ensures |r| == |s| && r[n..] == s[n..]
    ensures forall i :: 0 <= i < n ==> r[i] == 255 - s[i]
    decreases n
  {
    if n == 0 then s else Inverted(s, n - 1)[n - 1 := Complement(s[n - 1])]
  }

  /** Inverting the same prefix twice restores the buffer. */
  lemma InvertedTwice(s: seq<uint8>, n: nat)
    requires n <= |s|
    ensures Inverted(Inverted(s, n), n) == s
  {
    var t := Inverted(Inverted(s, n), n);
    assert forall i :: 0 <= i < |s| ==> t[i] == s[i];
  }

  /** Bytes k, k+1 and k+2 of r all hold the greyscale value of bytes
      k, k+1 and k+2 of s. */
  predicate GreyTriplet(r: seq<uint8>, s: seq<uint8>, k: nat)
    requires k + 2 < |r| && k + 2 < |s|
  {
    var v := Grey(s[k], s[k + 1], s[k + 2]);
    r[k] == v && r[k + 1] == v && r[k + 2] == v
  }

  /** Two distinct triplet starts are at least a triplet apart. */
  lemma TripletsApart(k: int, k': int)
    requires 0 <= k' < k && k' % 3 == 0 && k % 3 == 0
    ensures k' + 3 <= k
  {
  }

  /** Greyscaling triplet k of s on top of a buffer r whose earlier triplets
      are already greyscaled leaves those triplets greyscaled and adds k. */
  lemma GreyTripletsExtend(r: seq<uint8>, s: seq<uint8>, k: nat)
    requires |r| == |s| && k % 3 == 0 && k + 3 <= |s|
    requires forall k' :: 0 <= k' < k && k' % 3 == 0 ==> GreyTriplet(r, s, k')
    ensures var v := Grey(s[k], s[k + 1], s[k + 2]);
      forall k' :: 0 <= k' < k + 3 && k' % 3 == 0 ==> GreyTriplet(r[k := v][k + 1 := v][k + 2 := v], s, k')
  {
    var v := Grey(s[k], s[k + 1], s[k + 2]);
    var r' := r[k := v][k + 1 := v][k + 2 := v];
    forall k' | 0 <= k' < k + 3 && k' % 3 == 0
      ensures GreyTriplet(r', s, k')
    {
      if k' < k {
        TripletsApart(k, k');
        assert GreyTriplet(r, s, k');
      } else {
        TripletsApart(k + 3, k');
      }
    }
  }

  /** The buffer s after its first n bytes, taken as triplets, each have all
      three bytes set to the triplet's greyscale value. */
  function Greyscaled(s: seq<uint8>, n: nat): (r: seq<uint8>)
    requires n <= |s| && n % 3 == 0
    ensures |r| == |s| && r[n..] == s[n..]
    ensures forall k :: 0 <= k < n && k % 3 == 0 ==> GreyTriplet(r, s, k)
    decreases n
  {
    if n == 0 then s
    else
      var k := n - 3;
      var v := Grey(s[k], s[k + 1], s[k + 2]);
      var done := Greyscaled(s, k);
      var r := done[k := v][k + 1 := v][k + 2 := v];
      assert r[n..] == done[n..];
      GreyTripletsExtend(done, s, k);
      r
  }

  /** Greyscaling one more triplet extends the greyscaled prefix: the next
      triplet of a partly greyscaled buffer still holds its original bytes,
      and overwriting it with their grey gives the longer prefix. */
  lemma GreyscaledStep(s: seq<uint8>, k: nat)
    requires k % 3 == 0 && k + 3 <= |s|
    ensures var cur := Greyscaled(s, k);
      var v := Grey(cur[k], cur[k + 1], cur[k + 2]);
      Greyscaled(s, k + 3) == cur[k := v][k + 1 := v][k + 2 := v]
  {
    var cur := Greyscaled(s, k);
    assert cur[k..][0] == s[k..][0] && cur[k..][1] == s[k..][1] && cur[k..][2] == s[k..][2];
  }

  /** Every byte of the first n lies in a triplet that starts at a
      multiple of 3 and ends by n. */
  lemma TripletOf(n: nat, i: nat) returns (k: nat)
    requires n % 3 == 0 && i < n
    ensures k % 3 == 0 && k + 3 <= n && (i == k || i == k + 1 || i == k + 2)
  {
    k := i - i % 3;
  }

  /** A triplet of equal bytes is its own grey. */
  lemma GreyOfUniform(v: uint8)
    ensures Grey(v, v, v) == v
  {
  }

  /** A greyscaled triplet is its own grey. */
  lemma GreyscaledTwiceAt(s: seq<uint8>, n: nat, i: nat)
    requires n <= |s| && n % 3 == 0 && i < n
    ensures Greyscaled(Greyscaled(s, n), n)[i] == Greyscaled(s, n)[i]
  {
    var t := Greyscaled(s, n);
    var u := Greyscaled(t, n);
    var k := TripletOf(n, i);
    assert GreyTriplet(t, s, k);
    var v := t[k];
    GreyOfUniform(v);
    assert GreyTriplet(u, t, k);
  }

  /** Greyscale is idempotent. */
  lemma GreyscaledTwice(s: seq<uint8>, n: nat)
    requires n <= |s| && n % 3 == 0
    ensures Greyscaled(Greyscaled(s, n), n) == Greyscaled(s, n)
  {
    var t := Greyscaled(s, n);
    var u := Greyscaled(t, n);
    forall i | 0 <= i < n
      ensures u[i] == t[i]
    {
      GreyscaledTwiceAt(s, n, i);
    }
    assert u[n..] == t[n..];
  }

  /** reverseBmp: complements the first sizeImage bytes in place and returns
      the same buffer. */
  method ReverseBmp(img: array<uint8>, sizeImage: uint32) returns (out: array<uint8>)
    requires sizeImage <= img.Length
    modifies img
    ensures out == img
    ensures img[..] == Inverted(old(img[..]), sizeImage)
  {
    var imgIdx: uint32 := 0;
    while imgIdx < sizeImage
      invariant imgIdx <= sizeImage
      invariant img[..] == Inverted(old(img[..]), imgIdx)
    {
      img[imgIdx] := Complement(img[imgIdx]);
      imgIdx := imgIdx + 1;
    }
    out := img;
  }

  /** applyFilter for every filter code but sepia: greyscale rewrites the
      first sizeImage bytes triplet by triplet; none and every code outside
      the enumeration leave the buffer as it was. The same buffer is returned. */
  method ApplyFilter(img: array<uint8>, sizeImage: uint32, filterID: int) returns (out: array<uint8>)
    requires sizeImage <= img.Length
    requires filterID != FilterID.Sepia.Code()
    requires filterID == FilterID.Greyscale.Code() ==> sizeImage % 3 == 0
    modifies img
    ensures out == img
    ensures filterID == FilterID.Greyscale.Code() ==> img[..] == Greyscaled(old(img[..]), sizeImage)
    ensures filterID != FilterID.Greyscale.Code() ==> img[..] == old(img[..])
  {
    match FilterFromCode(filterID) {
      case Some(None) =>
        // FilterID.None: the switch's `none` case
      case Some(Sepia) =>
        assert false;
      case Some(Greyscale) =>
        var imgIdx: uint32 := 0;
        while imgIdx < sizeImage
          invariant imgIdx <= sizeImage && imgIdx % 3 == 0
          invariant img[..] == Greyscaled(old(img[..]), imgIdx)
        {
          TripletsApart(sizeImage, imgIdx);
          GreyscaledStep(old(img[..]), imgIdx);
          var greyColor := Grey(img[imgIdx], img[imgIdx + 1], img[imgIdx + 2]);
          img[imgIdx], img[imgIdx + 1], img[imgIdx + 2] := greyColor, greyColor, greyColor;
          imgIdx := imgIdx + 3;
        }
      case None =>
        // Wrappers.None: a code outside the enumeration falls to the switch's default
    }
    out := img;
  }

  /** The first n bytes of pixels after the tool's transform step, for a
      filter code as main stores it (a uint8_t): each byte is complemented
      first when asked, and then, with greyscale's code, each triplet becomes
      three copies of the grey of its (possibly complemented) bytes. Any
      other code but sepia's leaves the bytes as the inversion step left
      them. Bytes from n on are untouched. */
  function Transformed(pixels: seq<uint8>, n: nat, invert: bool, filter: uint8): (r: seq<uint8>)
    requires n <= |pixels|
    requires filter != FilterID.Sepia.Code()
    requires filter == FilterID.Greyscale.Code() ==> n % 3 == 0
    ensures |r| == |pixels| && r[n..] == pixels[n..]
    ensures filter != FilterID.Greyscale.Code() ==>
      forall i :: 0 <= i < n ==> r[i] == if invert then 255 - pixels[i] else pixels[i]
    ensures filter == FilterID.Greyscale.Code() ==>
      forall k :: 0 <= k < n && k % 3 == 0 ==>
        GreyTriplet(r, if invert then Inverted(pixels, n) else pixels, k)
  {
    var t := if invert then Inverted(pixels, n) else pixels;
    if filter == FilterID.Greyscale.Code() then Greyscaled(t, n) else t
  }

  /** The tool's transform step: invert first when asked, then apply the
      filter when its code is non-zero. */
  method Process(img: array<uint8>, sizeImage: uint32, invert: bool, filter: uint8) returns (out: array<uint8>)
    requires sizeImage <= img.Length
    requires filter != FilterID.Sepia.Code()
    requires filter == FilterID.Greyscale.Code() ==> sizeImage % 3 == 0
    modifies img
    ensures out == img
    ensures img[..] == Transformed(old(img[..]), sizeImage, invert, filter)
  {
    out := img;
    if invert {
      out := ReverseBmp(out, sizeImage);
    }
    if filter != 0 {
      out := ApplyFilter(out, sizeImage, filter);
    }
  }
}
