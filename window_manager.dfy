/**
 * The window manager's lookups: finding an open window by identifier and
 * finding the theme image file that best fits a requested size.
 */
module WindowManager {
  import opened Wrappers

  // ---------------------------------------------------------------------
  // Open windows
  // ---------------------------------------------------------------------

  /**
   * `window(window_id)`: the window of the first (identifier, window) pair,
   * in the order the windows were opened, whose identifier equals
   * window_id; None when no open window has it.
   */
  function Window<K(==), W>(windows: seq<(K, W)>, id: K): (r: Option<W>)
    ensures r.None? <==> forall i :: 0 <= i < |windows| ==> windows[i].0 != id
    ensures r.Some? ==> exists i :: (0 <= i < |windows| && windows[i].0 == id && windows[i].1 == r.value
      && forall j :: 0 <= j < i ==> windows[j].0 != id)
  {
    if windows == [] then None
    else if windows[0].0 == id then Some(windows[0].1)
    else
      var rest := Window(windows[1..], id);
      assert forall i :: 0 < i < |windows| ==> windows[i] == windows[1..][i - 1];
      rest
  }

  /** Opening another window does not change which window an earlier-opened identifier finds. */
  lemma {:induction false} WindowIgnoresLater<K, W>(windows: seq<(K, W)>, later: seq<(K, W)>, id: K)
    requires Window(windows, id).Some?
    ensures Window(windows + later, id) == Window(windows, id)
  {
    if windows[0].0 != id {
      assert (windows + later)[1..] == windows[1..] + later;
      WindowIgnoresLater(windows[1..], later, id);
    }
  }

  // ---------------------------------------------------------------------
  // Image sizes
  // ---------------------------------------------------------------------

  /** The sizes the theme ships images in, largest first. */
  const Sizes: seq<nat> := [256, 128, 64, 32, 24, 22, 16]

  /** The smallest size the theme ships, the answer when no listed size fits. */
  const Smallest: nat := 16

  /** The shipped sizes are listed strictly largest first, ending with the smallest. */
  lemma SizesDescend()
    ensures forall i, j :: 0 <= i < j < |Sizes| ==> Sizes[i] > Sizes[j]
    ensures Sizes[|Sizes| - 1] == Smallest
  {
  }

  /**
   * The position of the first listed size, scanning from position i, that
   * is at most size; the position of the smallest size when none is.
   */
  function ClosestIndex(size: int, i: nat): (k: nat)
    requires i <= |Sizes|
    ensures k < |Sizes|
    ensures Sizes[k] <= size || k == |Sizes| - 1
    ensures forall j :: i <= j < k ==> Sizes[j] > size
    decreases |Sizes| - i
  {
    if i == |Sizes| then |Sizes| - 1
    else if Sizes[i] <= size then i
    else ClosestIndex(size, i + 1)
  }

  /**
   * `_closest_smallest_size(size)`: the largest listed size that is at most
   * size; the smallest listed size when size is below all of them.
   */
  function ClosestSmallestSize(size: int): (r: nat)
    ensures r in Sizes
    ensures size >= Smallest ==> r <= size
    ensures size < Smallest ==> r == Smallest
    ensures forall i :: 0 <= i < |Sizes| && Sizes[i] <= size ==> Sizes[i] <= r
  {
    SizesDescend();
    Sizes[ClosestIndex(size, 0)]
  }

  /** A listed size is found at its own position. */
  lemma ClosestOfListed(k: nat)
    requires k < |Sizes|
    ensures ClosestIndex(Sizes[k], 0) == k && ClosestSmallestSize(Sizes[k]) == Sizes[k]
  {
    SizesDescend();
  }

  /** One below a listed size other than the smallest, the next listed size is found. */
  lemma ClosestBelowListed(k: nat, next: nat)
    requires next == k + 1 && next < |Sizes|
    ensures ClosestIndex(Sizes[k] - 1, 0) == next
  {
    SizesDescend();
  }

  /** Asking for a larger size never gives a smaller image. */
  lemma ClosestMonotone(a: int, b: int)
    requires a <= b
    ensures ClosestSmallestSize(a) <= ClosestSmallestSize(b)
  {
    var ra := ClosestSmallestSize(a);
    if ra <= b {
      assert exists i :: 0 <= i < |Sizes| && Sizes[i] == ra;
    }
  }

  /**
   * The sizes `theme_image_file` tries for one name when asked for size:
   * after a miss at a size other than the smallest it looks at the
   * closest smallest size of one less, so it walks the list from the
   * closest smallest size to its end.
   */
  function Ladder(size: int): (r: seq<nat>)
  {
    Sizes[ClosestIndex(size, 0)..]
  }

  /**
   * A ladder starts at the closest smallest size, ends at the smallest
   * size, lists strictly largest first, and holds exactly the shipped sizes
   * that are at most its top.
   */
  lemma LadderIsSizesBelow(size: int)
    ensures |Ladder(size)| > 0 && Ladder(size)[0] == ClosestSmallestSize(size)
    ensures Ladder(size)[|Ladder(size)| - 1] == Smallest
    ensures forall i, j :: 0 <= i < j < |Ladder(size)| ==> Ladder(size)[i] > Ladder(size)[j]
    ensures forall t :: t in Ladder(size) <==> t in Sizes && t <= ClosestSmallestSize(size)
  {
    SizesDescend();
    var k := ClosestIndex(size, 0);
    var l := Ladder(size);
    forall t | t in Sizes && t <= ClosestSmallestSize(size) ensures t in l {
      var i :| 0 <= i < |Sizes| && Sizes[i] == t;
      if i >= k {
        assert l[i - k] == t;
      }
    }
  }

  // ---------------------------------------------------------------------
  // Theme image files
  // ---------------------------------------------------------------------

  /** The decimal digit of d, as `%d` writes it. */
  function Digit(d: nat): (c: char)
    requires d < 10
    ensures '0' <= c <= '9'
  {
    "0123456789"[d]
  }

  /** `%d` of a non-negative number. */
  function NatToString(n: nat): (r: string)
    ensures |r| > 0 && forall i :: 0 <= i < |r| ==> '0' <= r[i] <= '9'
    ensures n > 0 ==> r[0] != '0'
  {
    if n < 10 then [Digit(n)] else NatToString(n / 10) + [Digit(n % 10)]
  }

  /** The number a string of decimal digits stands for. */
  function DecimalValue(s: string): nat
    requires forall i :: 0 <= i < |s| ==> '0' <= s[i] <= '9'
  {
    if s == [] then 0 else 10 * DecimalValue(s[..|s| - 1]) + (s[|s| - 1] as int - '0' as int)
  }

  /** `%d` loses nothing: reading the digits back gives the number. */
  lemma {:induction false} NatToStringRoundTrip(n: nat)
    ensures DecimalValue(NatToString(n)) == n
  {
    var r := NatToString(n);
    if n < 10 {
      assert r[..0] == [];
    } else {
      var q := n / 10;
      NatToStringRoundTrip(q);
      assert r[..|r| - 1] == NatToString(q);
    }
  }

  /** The relative path `theme_image_file` probes for an image name at a size. */
  function ImagePath(theme: string, size: nat, name: string): (p: string)
    ensures "ui/fontawesome/" <= p
    ensures |p| >= |name| + 4 && p[|p| - |name| - 4..] == name + ".png"
  {
    "ui/fontawesome/" + theme + "/png/" + NatToString(size) + "/" + name + ".png"
  }

  /** The name of the theme's "image not found" image. */
  const Fallback: string := "image"

  /** The paths of one name at the sizes of a ladder, in order. */
  function Paths(theme: string, name: string, sizes: seq<nat>): (r: seq<string>)
    ensures |r| == |sizes| && forall i :: 0 <= i < |sizes| ==> r[i] == ImagePath(theme, sizes[i], name)
  {
    seq(|sizes|, i requires 0 <= i < |sizes| => ImagePath(theme, sizes[i], name))
  }

  /**
   * The paths `theme_image_file` probes for name from the closest smallest
   * size of start downwards; unless name already is the fallback image,
   * followed by the same probes for the fallback image, restarted from
   * the size originally asked for.
   */
  function Candidates(theme: string, name: string, start: int, original: int): seq<string> {
    Paths(theme, name, Ladder(start))
      + (if name == Fallback then [] else Paths(theme, Fallback, Ladder(original)))
  }

  /** The first path that exists, or None when none does. */
  function FirstExisting(paths: seq<string>, exists_: string -> bool): (r: Option<string>)
    ensures r.None? <==> forall i :: 0 <= i < |paths| ==> !exists_(paths[i])
    ensures r.Some? ==> exists k :: (0 <= k < |paths| && paths[k] == r.value && exists_(r.value)
      && forall j :: 0 <= j < k ==> !exists_(paths[j]))
  {
    if paths == [] then None
    else if exists_(paths[0]) then Some(paths[0])
    else
      var rest := FirstExisting(paths[1..], exists_);
      assert forall i :: 0 < i < |paths| ==> paths[i] == paths[1..][i - 1];
      rest
  }

  /**
   * `theme_image_file(name, size, theme)`: the first of the candidate
   * paths that exists, lowering the size step by step and finally
   * falling back to the "image not found" image; None when not even that
   * exists. `exists_` stands for `os.path.exists`.
   */
  method ThemeImageFile(name: string, size: int, theme: string, exists_: string -> bool) returns (file: Option<string>)
    ensures file == FirstExisting(Candidates(theme, name, size, size), exists_)
  {
    var current := name;
    var at := size;
    while true
      invariant current == name || current == Fallback
      invariant FirstExisting(Candidates(theme, name, size, size), exists_)
        == FirstExisting(Candidates(theme, current, at, size), exists_)
      decreases if current == Fallback then 0 else 1, if at < 0 then 0 else at
    {
      ghost var before := at;
      at := ClosestSmallestSize(at);
      var path := ImagePath(theme, at, current);
      ProbeStep(theme, current, before, at, size, exists_);
      if exists_(path) {
        return Some(path);
      } else if at == Smallest {
        if current == Fallback {
          return None;
        }
        current := Fallback;
        at := size;
      } else {
        at := at - 1;
      }
    }
  }

  /**
   * One probe of `theme_image_file`'s loop, asked for size `before` and so
   * probing at its closest smallest size s: a hit ends the search; a miss
   * at the smallest size ends it for the fallback image and restarts it
   * for the fallback image otherwise; any other miss goes on from s - 1.
   */
  lemma ProbeStep(theme: string, name: string, before: int, s: nat, original: int, exists_: string -> bool)
    requires s == ClosestSmallestSize(before)
    ensures var p := ImagePath(theme, s, name);
      FirstExisting(Candidates(theme, name, before, original), exists_)
      == if exists_(p) then Some(p)
         else if s != Smallest then FirstExisting(Candidates(theme, name, s - 1, original), exists_)
         else if name == Fallback then None
         else FirstExisting(Candidates(theme, Fallback, original, original), exists_)
  {
    SizesDescend();
    var k := ClosestIndex(before, 0);
    ClosestOfListed(k);
    assert Candidates(theme, name, before, original) == Candidates(theme, name, s, original);
    var p := ImagePath(theme, s, name);
    if k == |Sizes| - 1 {
      CandidatesAtSmallest(theme, name, original);
      var tail := if name == Fallback then [] else Candidates(theme, Fallback, original, original);
      FirstExistingCons(p, tail, exists_);
    } else {
      var next := k + 1;
      CandidatesBelow(theme, name, k, next, s, original);
      FirstExistingCons(p, Candidates(theme, name, s - 1, original), exists_);
    }
  }

  /** At the smallest size only that size is left for a name, then the fallback image's probes. */
  lemma CandidatesAtSmallest(theme: string, name: string, original: int)
    ensures Candidates(theme, name, Smallest, original)
      == [ImagePath(theme, Smallest, name)] + (if name == Fallback then [] else Candidates(theme, Fallback, original, original))
  {
    var last := |Sizes| - 1;
    ClosestOfListed(last);
    assert Ladder(Smallest) == [Smallest] + [];
    PathsCons(theme, name, Smallest, []);
  }

  /** At a listed size other than the smallest, the probe at that size comes before those from one less. */
  lemma CandidatesBelow(theme: string, name: string, k: nat, next: nat, s: nat, original: int)
    requires next == k + 1 && next < |Sizes| && s == Sizes[k]
    ensures Candidates(theme, name, s, original)
      == [ImagePath(theme, s, name)] + Candidates(theme, name, s - 1, original)
  {
    var below := s - 1;
    LadderStep(k, next, s, below);
    PathsCons(theme, name, s, Ladder(below));
    var own := Paths(theme, name, Ladder(below));
    var tail := if name == Fallback then [] else Paths(theme, Fallback, Ladder(original));
    ConsAssoc(ImagePath(theme, s, name), own, tail);
  }

  /** From a listed size other than the smallest, the ladder goes on from one less. */
  lemma LadderStep(k: nat, next: nat, s: nat, below: int)
    requires next == k + 1 && next < |Sizes| && s == Sizes[k] && below == s - 1
    ensures Ladder(s) == [s] + Ladder(below)
  {
    ClosestOfListed(k);
    ClosestBelowListed(k, next);
    SliceCons(Sizes, k, next);
  }

  /** `os.path.exists` decides the first probe; after a miss the search goes on with the rest. */
  lemma FirstExistingCons(p: string, rest: seq<string>, exists_: string -> bool)
    ensures FirstExisting([p] + rest, exists_) == if exists_(p) then Some(p) else FirstExisting(rest, exists_)
  {
    assert ([p] + rest)[0] == p && ([p] + rest)[1..] == rest;
  }

  /** The paths of a ladder are its top's path followed by the paths of the rest. */
  lemma PathsCons(theme: string, name: string, s: nat, rest: seq<nat>)
    ensures Paths(theme, name, [s] + rest) == [ImagePath(theme, s, name)] + Paths(theme, name, rest)
  {
    var l, r := Paths(theme, name, [s] + rest), [ImagePath(theme, s, name)] + Paths(theme, name, rest);
    forall i | 0 <= i < |l| ensures l[i] == r[i] {
      if i > 0 {
        assert ([s] + rest)[i] == rest[i - 1];
      }
    }
  }

  /**
   * The answer of `theme_image_file` names an existing file, probed for
   * the requested name or for the fallback image at a shipped size.
   */
  lemma FoundFileExists(name: string, size: int, theme: string, exists_: string -> bool)
    ensures FirstExisting(Candidates(theme, name, size, size), exists_).Some? ==>
      var file := FirstExisting(Candidates(theme, name, size, size), exists_).value;
      exists_(file) && exists s, n :: s in Sizes && (n == name || n == Fallback) && file == ImagePath(theme, s, n)
  {
    var c := Candidates(theme, name, size, size);
    var r := FirstExisting(c, exists_);
    if r.Some? {
      var k :| 0 <= k < |c| && c[k] == r.value;
      LadderIsSizesBelow(size);
      var own := Paths(theme, name, Ladder(size));
      if k < |own| {
        var at := Ladder(size)[k];
        assert at in Ladder(size) && c[k] == own[k];
      } else {
        var j := k - |own|;
        var at := Ladder(size)[j];
        assert at in Ladder(size) && c[k] == Paths(theme, Fallback, Ladder(size))[j];
      }
    }
  }

  /**
   * When no image of the requested name exists, `theme_image_file` gives
   * what it gives for the fallback image.
   */
  lemma {:induction false} FallsBackWhenMissing(name: string, size: int, theme: string, exists_: string -> bool)
    requires name != Fallback
    ensures (forall s :: s in Sizes ==> !exists_(ImagePath(theme, s, name))) ==>
      FirstExisting(Candidates(theme, name, size, size), exists_)
        == FirstExisting(Candidates(theme, Fallback, size, size), exists_)
  {
    var own := Paths(theme, name, Ladder(size));
    var tail := Paths(theme, Fallback, Ladder(size));
    if forall s :: s in Sizes ==> !exists_(ImagePath(theme, s, name)) {
      LadderIsSizesBelow(size);
      forall i | 0 <= i < |own| ensures !exists_(own[i]) {
        assert Ladder(size)[i] in Ladder(size);
      }
      SkipMissing(own, tail, exists_);
      AppendNothing(tail);
    }
  }

  /** Probing paths that do not exist first changes nothing. */
  lemma {:induction false} SkipMissing(missing: seq<string>, rest: seq<string>, exists_: string -> bool)
    requires forall i :: 0 <= i < |missing| ==> !exists_(missing[i])
    ensures FirstExisting(missing + rest, exists_) == FirstExisting(rest, exists_)
  {
    if missing != [] {
      assert !exists_(missing[0]);
      assert missing + rest == [missing[0]] + (missing[1..] + rest);
      FirstExistingCons(missing[0], missing[1..] + rest, exists_);
      SkipMissing(missing[1..], rest, exists_);
    } else {
      assert missing + rest == rest;
    }
  }

  /** A slice from position k is its first element followed by the slice from k + 1. */
  lemma SliceCons<T>(s: seq<T>, k: nat, next: nat)
    requires next == k + 1 && next <= |s|
    ensures s[k..] == [s[k]] + s[next..]
  {
  }

  lemma ConsAssoc<T>(x: T, a: seq<T>, b: seq<T>)
    ensures ([x] + a) + b == [x] + (a + b)
  {
  }

  lemma AppendNothing<T>(a: seq<T>)
    ensures a + [] == a
  {
  }
}
