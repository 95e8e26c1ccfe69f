/** Cutting a stream into access units, one unit ahead. collect_nal decides each cut;
    the loop that calls it for every unit and starts a new frame at each cut is
    stated here, the repository has none. */
module AccessUnits {
  import opened Bytes
  import opened NalUnits
  import opened Sequences

  /** A unit as collect_nal looks at it: its type, and the bit that says it is the
      first slice of a picture. */
  datatype Unit = Unit(nalType: nat, first: bool)

  type Stream = seq<Unit>

  /** A slice of a primary coded picture. */
  predicate Primary(c: Codec, u: Unit) {
    if c.H264? then u.nalType == 1 || u.nalType == 2 || u.nalType == 5
    else u.nalType <= 9 || 16 <= u.nalType <= 23
  }

  /** A unit that cannot follow the slices of the picture before it: a simplified
      section 7.4.1.2.4 of ITU-T H.264, 7.4.2.4.4 of ITU-T H.265. */
  predicate Starter(c: Codec, u: Unit) {
    var t := u.nalType;
    (if c.H264? then 6 <= t <= 9 || 14 <= t <= 18
     else 32 <= t <= 35 || t == 39 || 41 <= t <= 44 || 48 <= t <= 55)
    || (Primary(c, u) && u.first)
  }

  /** By type. A picture has slices of types 1, 2 and 5, or 0 to 9 and 16 to 23. Another
      one starts at its first slice and at types 6 to 9 and 14 to 18, or 32 to 35, 39, 41
      to 44 and 48 to 55: so not behind the suffix SEI 40. */
  lemma ByType(c: Codec, u: Unit)
    ensures c.H264? ==> (Primary(c, u) <==> u.nalType in {1, 2, 5})
    ensures c.H265? ==> (Primary(c, u) <==> u.nalType / 8 in {0, 2} || u.nalType in {8, 9})
    ensures Starter(c, u) <==>
      || (Primary(c, u) && u.first)
      || (c.H264? && u.nalType in {6, 7, 8, 9, 14, 15, 16, 17, 18})
      || (c.H265? && (u.nalType in {32, 33, 34, 35, 39, 41, 42, 43, 44} || u.nalType / 8 == 6))
  {}

  /** How many units the first access unit has, when started says that a picture has
      begun before them. */
  function FirstLength(c: Codec, started: bool, s: Stream): (n: nat)
    ensures n <= |s| && (s != [] ==> n > 0)
    decreases |s|
  {
    if |s| <= 1 then |s| else
      var now := started || Primary(c, s[0]);
      if now && Starter(c, s[1]) then 1 else 1 + FirstLength(c, now, s[1..])
  }

  function Segments(c: Codec, s: Stream): seq<Stream>
    decreases |s|
  {
    if s == [] then [] else
      var n := FirstLength(c, false, s);
      [s[..n]] + Segments(c, s[n..])
  }

  function Join(parts: seq<Stream>): Stream {
    if parts == [] then [] else parts[0] + Join(parts[1..])
  }

  predicate HasPrimary(c: Codec, s: Stream) {
    exists k :: 0 <= k < |s| && Primary(c, s[k])
  }

  /** Behind the first slice of a picture nothing starts another one. */
  predicate OnePicture(c: Codec, s: Stream) {
    forall k, j :: 0 <= k < j < |s| && Primary(c, s[k]) ==> !Starter(c, s[j])
  }

  /** Access units: none is empty, none holds two pictures, every one that is
      complete holds a picture, and the next one starts where it must. */
  predicate AccessUnits(c: Codec, parts: seq<Stream>) {
    && (forall i :: 0 <= i < |parts| ==> parts[i] != [] && OnePicture(c, parts[i]))
    && (forall i :: 0 <= i < |parts| - 1 ==> HasPrimary(c, parts[i]))
    && (forall i :: 0 < i < |parts| ==> parts[i] != [] && Starter(c, parts[i][0]))
  }

  lemma {:induction false} FirstLengthMeans(c: Codec, started: bool, s: Stream)
    requires s != []
    ensures var n := FirstLength(c, started, s);
      && OnePicture(c, s[..n])
      && (started ==> forall j :: 0 < j < n ==> !Starter(c, s[j]))
      && (n < |s| ==> Starter(c, s[n]) && (started || HasPrimary(c, s[..n])))
    decreases |s|
  {
    var n := FirstLength(c, started, s);
    if |s| > 1 {
      var now := started || Primary(c, s[0]);
      if now && Starter(c, s[1]) {
        assert s[..1][0] == s[0];
      } else {
        FirstLengthMeans(c, now, s[1..]);
        var m := FirstLength(c, now, s[1..]);
        hide FirstLength, Primary, Starter;
        assert s[..n][1..] == s[1..][..m];
        forall j | 1 <= j < n ensures s[j] == s[1..][j - 1] && s[..n][j] == s[1..][..m][j - 1] {}
        if n < |s| {
          assert s[n] == s[1..][m];
          if !started {
            if Primary(c, s[0]) {
              assert s[..n][0] == s[0];
            } else {
              var k :| 0 <= k < m && Primary(c, s[1..][..m][k]);
              assert s[..n][k + 1] == s[1..][..m][k];
            }
          }
        }
      }
    }
  }

  lemma {:induction false} SegmentsAre(c: Codec, s: Stream)
    ensures Join(Segments(c, s)) == s && AccessUnits(c, Segments(c, s))
    ensures s != [] ==> Segments(c, s) != [] && Segments(c, s)[0] != [] && Segments(c, s)[0][0] == s[0]
    decreases |s|
  {
    hide Starter, Primary, OnePicture, HasPrimary, FirstLength, Join, AccessUnits;
    if s == [] {
      NoParts(c);
    } else {
      var n := FirstLength(c, false, s);
      FirstLengthMeans(c, false, s);
      SegmentsAre(c, s[n..]);
      OneMorePart(c, s[..n], Segments(c, s[n..]));
      assert s == s[..n] + s[n..];
    }
  }

  lemma NoParts(c: Codec)
    ensures Join([]) == [] && AccessUnits(c, [])
  {}

  lemma OneMorePart(c: Codec, a: Stream, rest: seq<Stream>)
    requires a != [] && OnePicture(c, a) && AccessUnits(c, rest)
    requires rest != [] ==> HasPrimary(c, a) && rest[0] != [] && Starter(c, rest[0][0])
    ensures Join([a] + rest) == a + Join(rest) && AccessUnits(c, [a] + rest)
  {
    hide Starter, OnePicture, HasPrimary;
    assert ([a] + rest)[1..] == rest;
  }

  lemma {:induction false} FirstLengthFrom(c: Codec, started: bool, s: Stream, n: nat)
    requires 0 < n <= |s| && OnePicture(c, s[..n]) && (started ==> forall j :: 0 < j < n ==> !Starter(c, s[j]))
    requires n < |s| ==> Starter(c, s[n]) && (started || HasPrimary(c, s[..n]))
    ensures FirstLength(c, started, s) == n
    decreases |s|
  {
    if |s| > 1 {
      var now := started || Primary(c, s[0]);
      if n == 1 {
        if !started { assert s[..1][0] == s[0]; }
      } else {
        assert s[..n][0] == s[0] && s[..n][1] == s[1];
        assert s[1..][..n - 1] == s[..n][1..];
        forall j | 0 < j < n ensures now ==> !Starter(c, s[j]) {
          assert s[..n][j] == s[j];
        }
        if n < |s| && !now {
          var k :| 0 <= k < n && Primary(c, s[..n][k]);
          assert s[1..][..n - 1][k - 1] == s[..n][k];
        }
        FirstLengthFrom(c, now, s[1..], n - 1);
      }
    }
  }

  /** Main result: of all ways to cut the stream, in order and without loss, the one
      that collect_nal gives is the only one into access units. */
  lemma {:induction false} SegmentsUnique(c: Codec, s: Stream, parts: seq<Stream>)
    ensures Join(parts) == s && AccessUnits(c, parts) <==> parts == Segments(c, s)
    decreases |parts|
  {
    hide *;
    SegmentsAre(c, s);
    NoSegments(c);
    NoParts(c);
    if Join(parts) == s && AccessUnits(c, parts) && parts != [] {
      var n := |parts[0]|;
      FirstPart(c, s, parts);
      FirstLengthFrom(c, false, s, n);
      SegmentsUnique(c, s[n..], parts[1..]);
      FirstSegment(c, s);
      assert parts == [parts[0]] + parts[1..];
    }
  }

  lemma FirstPart(c: Codec, s: Stream, parts: seq<Stream>)
    requires parts != [] && Join(parts) == s && AccessUnits(c, parts)
    ensures var n := |parts[0]|;
      && 0 < n <= |s| && s[..n] == parts[0] && s[n..] == Join(parts[1..]) && AccessUnits(c, parts[1..])
      && OnePicture(c, s[..n]) && (n < |s| ==> Starter(c, s[n]) && HasPrimary(c, s[..n]))
  {
    hide Starter, OnePicture, HasPrimary;
    var n := |parts[0]|;
    assert s[..n] == parts[0] && s[n..] == Join(parts[1..]);
    if |parts| > 1 {
      assert s[n..] == parts[1] + Join(parts[1..][1..]);
      assert s[n] == parts[1][0];
    }
  }

  lemma FirstSegment(c: Codec, s: Stream)
    requires s != []
    ensures var n := FirstLength(c, false, s);
      Segments(c, s) == [s[..n]] + Segments(c, s[n..])
  {}

  /** The field picture_start. */
  class Collector {
    const codec: Codec
    var pictureStart: bool

    constructor (codec: Codec)
      ensures this.codec == codec && !pictureStart
    {
      this.codec := codec;
      pictureStart := false;
    }

    /** collect_nal. When no next unit can be identified it does nothing. */
    method CollectNal(u: Unit, next: Option<Unit>) returns (complete: bool)
      modifies this
      ensures pictureStart == (old(pictureStart) || (next.Some? && Primary(codec, u)))
      ensures complete == (next.Some? && pictureStart && Starter(codec, next.value))
    {
      if next.None? {
        return false;
      }
      pictureStart := pictureStart || Primary(codec, u);
      complete := pictureStart && Starter(codec, next.value);
    }

    /** The driving loop: a cut wherever collect_nal says so, and then a new frame. */
    method Split(s: Stream) returns (parts: seq<Stream>)
      requires !pictureStart
      modifies this
      ensures parts == Segments(codec, s)
    {
      hide *;
      parts := [];
      NoSegments(codec);
      if s == [] {
        return;
      }
      var start: nat := 0;
      assert s[0..] == s;
      for i := 0 to |s|
        invariant start <= i && start < |s|
        invariant Segments(codec, s) == parts + Segments(codec, s[start..])
        invariant FirstLength(codec, false, s[start..]) == (i - start) + FirstLength(codec, pictureStart, s[i..])
      {
        var complete := false;
        if i + 1 < |s| {
          FirstLengthNext(codec, pictureStart, s, i);
          complete := CollectNal(s[i], Some(s[i + 1]));
        } else {
          LastLength(codec, pictureStart, s);
          complete := CollectNal(s[i], None);
        }
        if complete {
          SegmentsNext(codec, s, start, i + 1);
          Reassociate(parts, [s[start..i + 1]], Segments(codec, s[i + 1..]));
          parts := parts + [s[start..i + 1]];
          start := i + 1;
          pictureStart := false;
        }
      }
      LastLength(codec, pictureStart, s);
      SegmentsNext(codec, s, start, |s|);
      assert s[start..|s|] == s[start..] && [s[start..]] + [] == [s[start..]];
      parts := parts + [s[start..]];
    }
  }

  lemma NoSegments(c: Codec)
    ensures Segments(c, []) == []
  {}

  lemma LastLength(c: Codec, started: bool, s: Stream)
    requires s != []
    ensures FirstLength(c, started, s[|s| - 1..]) == 1 && FirstLength(c, started, s[|s|..]) == 0
  {}

  lemma FirstLengthNext(c: Codec, started: bool, s: Stream, i: nat)
    requires i + 1 < |s|
    ensures var now := started || Primary(c, s[i]);
      FirstLength(c, started, s[i..]) ==
        if now && Starter(c, s[i + 1]) then 1 else 1 + FirstLength(c, now, s[i + 1..])
  {
    assert s[i..][0] == s[i] && s[i..][1] == s[i + 1] && s[i..][1..] == s[i + 1..];
  }

  lemma SegmentsNext(c: Codec, s: Stream, start: nat, end: nat)
    requires start < end <= |s| && FirstLength(c, false, s[start..]) == end - start
    ensures Segments(c, s[start..]) == [s[start..end]] + Segments(c, s[end..])
    ensures end == |s| ==> Segments(c, s[end..]) == []
  {
    assert s[start..][..end - start] == s[start..end] && s[start..][end - start..] == s[end..];
  }
}
