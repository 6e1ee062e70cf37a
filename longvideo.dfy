/**
 The timeline rule of the looping slideshow builder: which directory entries
 become slides, how the slides are repeated until the target length is
 covered, which of them are scaled to full-HD height, whether the background
 music is attached, and what the output file is called.

 The media library, the image library, the file system and the progress bar
 are outside the model: the directory listing, each image's pixel size and
 whether the music file exists are inputs, and a clip is the tag that says
 which image it shows, for how long and whether it was resized.
 */
module LongVideo {
  import Decimal
  import opened Wrappers

  /** Pixel size of an image as the image library reports it. */
  datatype Size = Size(width: int, height: int)

  /** The full-HD frame every slide is meant to fill. */
  const FrameWidth := 1920
  const FrameHeight := 1080

  /** One still-image clip: the image it shows, how many seconds, and whether it was scaled to FrameHeight. */
  datatype Clip = Clip(path: string, seconds: int, resized: bool)

  datatype Audio = Silent | LoopedBgm(path: string, seconds: int)

  /** What is handed to the encoder: the slides in order, trimmed to `seconds`, with its soundtrack and file name. */
  datatype Video = Video(clips: seq<Clip>, seconds: int, audio: Audio, fileName: string)

  // ---------------------------------------------------------------------
  // Image selection
  // ---------------------------------------------------------------------

  predicate EndsWith(s: string, suffix: string) {
    |suffix| <= |s| && s[|s| - |suffix|..] == suffix
  }

  function LowerChar(c: char): char {
    if 'A' <= c <= 'Z' then (c as int + ('a' as int - 'A' as int)) as char else c
  }

  /** `str.lower`, restricted to the ASCII letters. */
  function Lower(s: string): (r: string)
    ensures |r| == |s|
    ensures forall i :: 0 <= i < |r| ==> !('A' <= r[i] <= 'Z')
    ensures forall i :: 0 <= i < |r| ==> ('a' <= r[i] <= 'z' <==> 'a' <= s[i] <= 'z' || 'A' <= s[i] <= 'Z')
    ensures forall i :: 0 <= i < |s| ==>
              if 'A' <= s[i] <= 'Z' then r[i] as int == s[i] as int + 32 else r[i] == s[i]
  {
    seq(|s|, i requires 0 <= i < |s| => LowerChar(s[i]))
  }

  /** Lower-casing twice is lower-casing once. */
  lemma LowerIdempotent(s: string)
    ensures Lower(Lower(s)) == Lower(s)
  {
    var once := Lower(s);
    forall i | 0 <= i < |s|
      ensures Lower(once)[i] == once[i]
    {
      assert !('A' <= once[i] <= 'Z');
    }
  }

  /** `c` is the letter or punctuation `e` of a lower-case pattern, in either case. */
  predicate SameIgnoringCase(c: char, e: char) {
    c == e || ('a' <= e <= 'z' && c as int == e as int - 32)
  }

  /** `name` ends with the lower-case pattern `ext`, each letter in either case. */
  predicate EndsWithIgnoringCase(name: string, ext: string) {
    |ext| <= |name| && forall j :: 0 <= j < |ext| ==> SameIgnoringCase(name[|name| - |ext| + j], ext[j])
  }

  /** An entry is an image when its lower-cased name ends in .png, .jpg or .jpeg. */
  predicate HasImageExtension(name: string)
    ensures HasImageExtension(name) <==>
              EndsWithIgnoringCase(name, ".png") || EndsWithIgnoringCase(name, ".jpg") || EndsWithIgnoringCase(name, ".jpeg")
  {
    var lower := Lower(name);
    EndsWithLower(name, ".png");
    EndsWithLower(name, ".jpg");
    EndsWithLower(name, ".jpeg");
    EndsWith(lower, ".png") || EndsWith(lower, ".jpg") || EndsWith(lower, ".jpeg")
  }

  /** For a pattern of lower-case letters and dots, matching the lower-cased name is matching the name in either case. */
  lemma EndsWithLower(name: string, ext: string)
    requires forall j :: 0 <= j < |ext| ==> ext[j] == '.' || 'a' <= ext[j] <= 'z'
    ensures EndsWith(Lower(name), ext) <==> EndsWithIgnoringCase(name, ext)
  {
    if |ext| <= |name| {
      var lower, off := Lower(name), |name| - |ext|;
      assert forall j :: 0 <= j < |ext| ==> lower[off..][j] == lower[off + j];
      forall j | 0 <= j < |ext|
        ensures lower[off + j] == ext[j] <==> SameIgnoringCase(name[off + j], ext[j])
      {
      }
      if EndsWithIgnoringCase(name, ext) {
        assert lower[off..] == ext;
      }
    }
  }

  /** Whether an entry is an image does not depend on the case of its name. */
  lemma HasImageExtensionIgnoresCase(name: string)
    ensures HasImageExtension(name) <==> HasImageExtension(Lower(name))
  {
    LowerIdempotent(name);
  }

  lemma ImageExtensionAccepted()
    ensures HasImageExtension("A.PNG") && HasImageExtension("b.Jpeg")
  {
    assert EndsWithIgnoringCase("A.PNG", ".png");
    assert EndsWithIgnoringCase("b.Jpeg", ".jpeg");
  }

  lemma ImageExtensionRejected()
    ensures !HasImageExtension("x.gif") && !HasImageExtension("png")
  {
    assert !SameIgnoringCase("x.gif"[2], ".png"[1]);
    assert !SameIgnoringCase("x.gif"[2], ".jpg"[1]);
    assert !SameIgnoringCase("x.gif"[1], ".jpeg"[1]);
  }

  /** `os.path.join` of two components with the POSIX separator. */
  function JoinPath(dir: string, name: string): (path: string)
    ensures |name| > 0 && name[0] == '/' ==> path == name
    ensures !(|name| > 0 && name[0] == '/') ==>
              dir <= path && EndsWith(path, name) && |dir| + |name| <= |path| <= |dir| + |name| + 1
    ensures !(|name| > 0 && name[0] == '/') ==>
              (|path| == |dir| + |name| + 1 <==> dir != [] && dir[|dir| - 1] != '/')
    ensures !(|name| > 0 && name[0] == '/') && |path| == |dir| + |name| + 1 ==> path[|dir|] == '/'
  {
    if |name| > 0 && name[0] == '/' then name
    else if dir == [] || dir[|dir| - 1] == '/' then dir + name
    else dir + "/" + name
  }

  /** Relative names joined to one directory give the same path only when they are the same name. */
  lemma JoinPathInjective(dir: string, a: string, b: string)
    requires !(|a| > 0 && a[0] == '/') && !(|b| > 0 && b[0] == '/')
    ensures JoinPath(dir, a) == JoinPath(dir, b) <==> a == b
  {
    var pa, pb := JoinPath(dir, a), JoinPath(dir, b);
    if pa == pb {
      var head := if dir == [] || dir[|dir| - 1] == '/' then dir else dir + "/";
      assert pa == head + a && pb == head + b;
      assert a == pa[|head|..] && b == pb[|head|..];
    }
  }

  /** The list comprehension over the directory listing: keep the images, in listing order, joined to the directory. */
  function SelectImages(dir: string, listing: seq<string>): (paths: seq<string>)
    ensures |paths| <= |listing|
    decreases |listing|
  {
    if listing == [] then []
    else
      var rest := SelectImages(dir, listing[1..]);
      if HasImageExtension(listing[0]) then [JoinPath(dir, listing[0])] + rest else rest
  }

  /** Selection distributes over concatenation: the images of a listing keep their relative order. */
  lemma {:induction false} SelectImagesAppend(dir: string, a: seq<string>, b: seq<string>)
    ensures SelectImages(dir, a + b) == SelectImages(dir, a) + SelectImages(dir, b)
    decreases |a|
  {
    if a != [] {
      assert (a + b)[1..] == a[1..] + b;
      SelectImagesAppend(dir, a[1..], b);
    } else {
      assert a + b == b;
    }
  }

  /** A path is selected iff some entry of the listing is an image whose joined path it is. */
  lemma {:induction false} SelectImagesMember(dir: string, listing: seq<string>, p: string)
    ensures p in SelectImages(dir, listing) <==>
              exists i :: 0 <= i < |listing| && HasImageExtension(listing[i]) && p == JoinPath(dir, listing[i])
    decreases |listing|
  {
    if listing != [] {
      SelectImagesMember(dir, listing[1..], p);
      if exists i :: 0 <= i < |listing[1..]| && HasImageExtension(listing[1..][i]) && p == JoinPath(dir, listing[1..][i]) {
        var i :| 0 <= i < |listing[1..]| && HasImageExtension(listing[1..][i]) && p == JoinPath(dir, listing[1..][i]);
        assert listing[i + 1] == listing[1..][i];
      }
      if exists i :: 0 <= i < |listing| && HasImageExtension(listing[i]) && p == JoinPath(dir, listing[i]) {
        var i :| 0 <= i < |listing| && HasImageExtension(listing[i]) && p == JoinPath(dir, listing[i]);
        if i > 0 {
          assert listing[1..][i - 1] == listing[i];
        }
      }
    }
  }

  /** Nothing is selected iff no entry has an image extension. */
  lemma {:induction false} SelectImagesEmpty(dir: string, listing: seq<string>)
    ensures SelectImages(dir, listing) == [] <==> forall i :: 0 <= i < |listing| ==> !HasImageExtension(listing[i])
    decreases |listing|
  {
    if listing != [] {
      SelectImagesEmpty(dir, listing[1..]);
      assert forall i :: 1 <= i < |listing| ==> listing[i] == listing[1..][i - 1];
    }
  }

  // ---------------------------------------------------------------------
  // Clip sequencing
  // ---------------------------------------------------------------------

  /** Whole `b`-sized steps needed to reach `a`: the least count whose total is at least `a`. */
  function CeilDiv(a: nat, b: int): (c: nat)
    requires b > 0
    ensures a <= c * b < a + b
  {
    var q := (a + b - 1) / b;
    assert (a + b - 1) == q * b + (a + b - 1) % b;
    q
  }

  lemma CeilDivUnique(a: nat, b: int, c: int)
    requires b > 0 && a <= c * b < a + b
    ensures c == CeilDiv(a, b)
  {
    var d := CeilDiv(a, b);
    if c < d {
      assert c * b <= (d - 1) * b by { MulMonotone(c, d - 1, b); }
      assert false;
    } else if c > d {
      assert (d + 1) * b <= c * b by { MulMonotone(d + 1, c, b); }
      assert false;
    }
  }

  lemma MulMonotone(x: int, y: int, b: int)
    requires x <= y && b > 0
    ensures x * b <= y * b
  {
    assert y * b - x * b == (y - x) * b;
  }

  /** How many clips the loop appends: none when the target is not positive, otherwise the ceiling of target over the clip length. */
  function ClipCount(target: int, dur: int): (n: nat)
    requires dur > 0
    ensures target <= 0 ==> n == 0
    ensures target > 0 ==> target <= n * dur < target + dur
  {
    if target <= 0 then 0 else CeilDiv(target, dur)
  }

  /** The resize rule: scale to FrameHeight unless the image is exactly full HD. */
  function NeedsResize(size: Size): (r: bool)
    ensures r <==> size != Size(FrameWidth, FrameHeight)
  {
    size.width != FrameWidth || size.height != FrameHeight
  }

  /** The clip one pass of the inner loop builds for image `path`. */
  function ClipOf(path: string, sizeOf: string -> Size, dur: int): (c: Clip)
    ensures c.path == path && c.seconds == dur
    ensures c.resized <==> sizeOf(path) != Size(FrameWidth, FrameHeight)
  {
    Clip(path, dur, NeedsResize(sizeOf(path)))
  }

  /** The first `m` clips of the endless cycle over the images: clip k shows image k mod n. */
  function Cycled(images: seq<string>, sizeOf: string -> Size, dur: int, m: nat): seq<Clip>
    requires |images| > 0
  {
    seq(m, k requires 0 <= k => ClipOf(images[k % |images|], sizeOf, dur))
  }

  lemma CycledSnoc(images: seq<string>, sizeOf: string -> Size, dur: int, m: nat)
    requires |images| > 0
    ensures Cycled(images, sizeOf, dur, m + 1) == Cycled(images, sizeOf, dur, m) + [ClipOf(images[m % |images|], sizeOf, dur)]
  {
  }

  /** Reference timeline: ClipCount clips of the cycle over the images. */
  function Timeline(images: seq<string>, sizeOf: string -> Size, target: int, dur: int): seq<Clip>
    requires |images| > 0 && dur > 0
  {
    Cycled(images, sizeOf, dur, ClipCount(target, dur))
  }

  /** One complete pass of the inner `for` loop over the images. */
  function Pass(images: seq<string>, sizeOf: string -> Size, dur: int): (clips: seq<Clip>)
    ensures |clips| == |images|
    decreases |images|
  {
    if images == [] then [] else [ClipOf(images[0], sizeOf, dur)] + Pass(images[1..], sizeOf, dur)
  }

  /** `p` complete passes one after the other. */
  function Repeat(pass: seq<Clip>, p: nat): (clips: seq<Clip>)
    ensures |clips| == p * |pass|
  {
    if p == 0 then [] else Repeat(pass, p - 1) + pass
  }

  lemma {:induction false} PassAt(images: seq<string>, sizeOf: string -> Size, dur: int, i: int)
    requires 0 <= i < |images|
    ensures Pass(images, sizeOf, dur)[i] == ClipOf(images[i], sizeOf, dur)
    decreases |images|
  {
    if i > 0 {
      PassAt(images[1..], sizeOf, dur, i - 1);
    }
  }

  lemma ModOfOffset(m: nat, n: int, i: int)
    requires n > 0 && 0 <= i < n
    ensures (m * n + i) % n == i
  {
    var q, r := (m * n + i) / n, (m * n + i) % n;
    assert m * n + i == q * n + r;
    if q < m {
      MulMonotone(q + 1, m, n);
    } else if q > m {
      MulMonotone(m + 1, q, n);
    }
  }

  lemma ModSucc(m: nat, n: int)
    requires n > 0
    ensures (m + 1) % n == if m % n == n - 1 then 0 else m % n + 1
  {
    var q, r := m / n, m % n;
    assert m == q * n + r;
    if r == n - 1 {
      assert m + 1 == (q + 1) * n + 0;
      ModOfOffset(q + 1, n, 0);
    } else {
      assert m + 1 == q * n + (r + 1);
      ModOfOffset(q, n, r + 1);
    }
  }

  lemma MulSucc(x: int, d: int)
    ensures (x + 1) * d == x * d + d
  {
  }

  lemma {:induction false} RepeatAt(pass: seq<Clip>, p: nat, k: int)
    requires |pass| > 0 && 0 <= k < p * |pass|
    ensures Repeat(pass, p)[k] == pass[k % |pass|]
    decreases p
  {
    var n := |pass|;
    if k < (p - 1) * n {
      RepeatAt(pass, p - 1, k);
    } else {
      ModOfOffset(p - 1, n, k - (p - 1) * n);
    }
  }

  /**
   The timeline is whole passes over the images in listing order, the last
   pass cut short by the `break`: PassCount passes, of which only the last
   is incomplete.
   */
  lemma TimelineIsPasses(images: seq<string>, sizeOf: string -> Size, target: int, dur: int)
    requires |images| > 0 && dur > 0
    ensures var count, passes := ClipCount(target, dur), CeilDiv(ClipCount(target, dur), |images|);
            (passes - 1) * |images| < count <= passes * |images| &&
            Timeline(images, sizeOf, target, dur) == Repeat(Pass(images, sizeOf, dur), passes)[..count]
  {
    var n, count := |images|, ClipCount(target, dur);
    var passes := CeilDiv(count, n);
    var pass := Pass(images, sizeOf, dur);
    var whole := Repeat(pass, passes);
    forall k | 0 <= k < count
      ensures whole[k] == ClipOf(images[k % n], sizeOf, dur)
    {
      RepeatAt(pass, passes, k);
      PassAt(images, sizeOf, dur, k % n);
    }
  }

  /**
   The clip-building loop: a `while` over the time reached, with a `for`
   over the images inside it that stops as soon as the target is met.
   `progress` is what the progress bar has been advanced by.
   */
  method BuildClips(images: seq<string>, sizeOf: string -> Size, target: int, dur: int)
    returns (clips: seq<Clip>, time: int, progress: int)
    requires |images| > 0 && dur > 0
    ensures clips == Timeline(images, sizeOf, target, dur)
    ensures time == |clips| * dur && progress == time
    ensures target <= 0 ==> clips == [] && time == 0
    ensures target > 0 ==> target <= time < target + dur
  {
    var n := |images|;
    clips, time, progress := [], 0, 0;
    while time < target
      invariant time == |clips| * dur && progress == time
      invariant clips == [] || time - dur < target
      invariant time < target ==> |clips| % n == 0
      invariant clips == Cycled(images, sizeOf, dur, |clips|)
      decreases target - time
    {
      ghost var before := time;
      for i := 0 to n
        invariant |clips| % n == if i == n then 0 else i
        invariant time == |clips| * dur && progress == time
        invariant time - dur < target
        invariant i == 0 ==> time == before
        invariant i > 0 ==> time > before
        invariant clips == Cycled(images, sizeOf, dur, |clips|)
      {
        if time >= target {
          break;
        }
        var clip := ClipOf(images[i], sizeOf, dur);
        CycledSnoc(images, sizeOf, dur, |clips|);
        ModSucc(|clips|, n);
        MulSucc(|clips|, dur);
        clips := clips + [clip];
        time := time + dur;
        progress := progress + dur;
      }
    }
    if target > 0 {
      CeilDivUnique(target, dur, |clips|);
    }
  }

  // ---------------------------------------------------------------------
  // Soundtrack and output name
  // ---------------------------------------------------------------------

  /** The background music is looped to the target length iff its file exists; otherwise the video is silent. */
  function Soundtrack(bgmPath: string, bgmExists: bool, target: int): (a: Audio)
    ensures a.LoopedBgm? <==> bgmExists
    ensures a.LoopedBgm? ==> a.path == bgmPath && a.seconds == target
  {
    if bgmExists then LoopedBgm(bgmPath, target) else Silent
  }

  /** Python's `seconds // 60`: the floor, for negative lengths too. */
  function WholeMinutes(seconds: int): (m: int)
    ensures m * 60 <= seconds < m * 60 + 60
  {
    seconds / 60
  }

  const NamePrefix := "Lullaby_Loop_"
  const NameSuffix := "min.mp4"

  function OutputName(target: int): (name: string)
    ensures |name| > |NamePrefix| + |NameSuffix|
    ensures name[..|NamePrefix|] == NamePrefix && EndsWith(name, NameSuffix)
  {
    NamePrefix + Decimal.IntToString(WholeMinutes(target)) + NameSuffix
  }

  /** Reads the minute count back out of an output file name. */
  function MinutesOfName(name: string): Option<int> {
    if |name| >= |NamePrefix| + |NameSuffix| && name[..|NamePrefix|] == NamePrefix && EndsWith(name, NameSuffix) then
      Decimal.ParseInt(name[|NamePrefix|..|name| - |NameSuffix|])
    else None
  }

  lemma OutputNameRoundTrip(target: int)
    ensures MinutesOfName(OutputName(target)) == Some(target / 60)
  {
    var digits := Decimal.IntToString(WholeMinutes(target));
    var name := OutputName(target);
    assert name[|NamePrefix|..|name| - |NameSuffix|] == digits;
    Decimal.ParseIntToString(WholeMinutes(target));
  }

  /** Two targets get the same file name iff they have the same whole number of minutes. */
  lemma OutputNameSameIffSameMinutes(t1: int, t2: int)
    ensures OutputName(t1) == OutputName(t2) <==> t1 / 60 == t2 / 60
  {
    OutputNameRoundTrip(t1);
    OutputNameRoundTrip(t2);
  }

  // ---------------------------------------------------------------------
  // The whole run
  // ---------------------------------------------------------------------

  /**
   One run of the slideshow builder. None is the early return when the
   directory holds no image: no clip is built and nothing is written.
   */
  method CreateLoopedVideo(dir: string, listing: seq<string>, sizeOf: string -> Size,
                           bgmPath: string, bgmExists: bool, target: int, dur: int)
    returns (video: Option<Video>)
    requires dur > 0
    ensures video.None? <==> forall i :: 0 <= i < |listing| ==> !HasImageExtension(listing[i])
    ensures video.Some? ==>
              var images := SelectImages(dir, listing);
              |images| > 0 &&
              video.value.clips == Timeline(images, sizeOf, target, dur) &&
              video.value.seconds == target &&
              video.value.audio == Soundtrack(bgmPath, bgmExists, target) &&
              video.value.fileName == OutputName(target)
  {
    var images := SelectImages(dir, listing);
    SelectImagesEmpty(dir, listing);
    if images == [] {
      return None;
    }
    var clips, time, progress := BuildClips(images, sizeOf, target, dur);
    video := Some(Video(clips, target, Soundtrack(bgmPath, bgmExists, target), OutputName(target)));
  }

  /** The configured run: an hour of 15-second slides is 240 clips, written as Lullaby_Loop_60min.mp4. */
  lemma ConfiguredRun()
    ensures ClipCount(3600, 15) == 240
    ensures OutputName(3600) == "Lullaby_Loop_60min.mp4"
  {
    CeilDivUnique(3600, 15, 240);
    assert Decimal.NatToString(60) == "60";
  }
}
