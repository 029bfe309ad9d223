/**
 * The image gallery of a vehicle's detail view (`Galeria`): the list of images and the index
 * of the one shown, moved by thumbnail clicks and the previous/next arrows.
 */
module Gallery {
  import opened Wrappers

  /** `CONFIG.IMAGEN_DEFAULT`. */
  const DefaultImage: string := "/images/auto-default.jpg"

  /** The index `anterior` moves to: one back, or round to the last image from the first. */
  function PrevIndex(i: int, n: int): (r: int)
    ensures 0 <= i < n ==> r == (i - 1 + n) % n
  {
    if i > 0 then i - 1 else n - 1
  }

  /** The index `siguiente` moves to: one on, or round to the first image from the last. */
  function NextIndex(i: int, n: int): (r: int)
    ensures 0 <= i < n ==> r == (i + 1) % n
  {
    if i < n - 1 then i + 1 else 0
  }

  /** Going back then forward, or forward then back, returns to the same image. */
  lemma PrevNextInverse(i: int, n: int)
    requires 0 <= i < n
    ensures 0 <= PrevIndex(i, n) < n && 0 <= NextIndex(i, n) < n
    ensures NextIndex(PrevIndex(i, n), n) == i
    ensures PrevIndex(NextIndex(i, n), n) == i
  {
  }

  /** The arrows never leave a non-empty gallery's range once inside it; on an empty one
      `anterior` lands on -1. */
  lemma ArrowsStayInRange(i: int, n: int)
    ensures 0 <= i < n ==> 0 <= PrevIndex(i, n) < n && 0 <= NextIndex(i, n) < n
    ensures n > 0 && i >= n - 1 ==> NextIndex(i, n) == 0
    ensures n == 0 && i == 0 ==> PrevIndex(i, n) == -1 && NextIndex(i, n) == 0
  {
  }

  /** Pressing `siguiente` `k` times. */
  function NextTimes(i: int, n: int, k: nat): int
    decreases k
  {
    if k == 0 then i else NextIndex(NextTimes(i, n, k - 1), n)
  }

  /** Pressing `siguiente` `a + b` times is pressing it `a` times and then `b` times. */
  lemma {:induction false} NextTimesCompose(i: int, n: int, a: nat, b: nat)
    ensures NextTimes(i, n, a + b) == NextTimes(NextTimes(i, n, a), n, b)
    decreases b
  {
    if b > 0 {
      NextTimesCompose(i, n, a, b - 1);
      assert NextTimes(i, n, a + b) == NextIndex(NextTimes(i, n, a + b - 1), n);
    }
  }

  /** Before the end of the gallery, `k` presses move exactly `k` images on. */
  lemma {:induction false} NextTimesWalks(i: int, n: int, k: nat)
    requires 0 <= i && i + k < n
    ensures NextTimes(i, n, k) == i + k
    decreases k
  {
    if k > 0 {
      NextTimesWalks(i, n, k - 1);
    }
  }

  /** Going all the way round a gallery of `n` images comes back to the start. */
  lemma FullCircle(i: int, n: int)
    requires 0 <= i < n
    ensures NextTimes(i, n, n) == i
  {
    NextTimesWalks(i, n, n - 1 - i);
    assert NextTimes(i, n, n - i) == 0;
    NextTimesWalks(0, n, i);
    NextTimesCompose(i, n, n - i, i);
  }

  /** The image the main picture shows when the gallery is first drawn:
      `imagenes[0] || CONFIG.IMAGEN_DEFAULT` (an empty URL counts as missing). */
  function FirstImage(images: seq<string>): (r: string)
    ensures r != ""
    ensures r == DefaultImage || (r in images && r == images[0])
    ensures images != [] && images[0] != "" ==> r == images[0]
  {
    if images != [] && images[0] != "" then images[0] else DefaultImage
  }

  /** The `Galeria` object. */
  class Gallery {
    var images: seq<string>
    var current: int

    /** The index points at one of the images. */
    predicate InRange()
      reads this
    {
      0 <= current < |images|
    }

    /** The image `seleccionar` puts in the main picture (`this.imagenes[index]`, which is
        `undefined` outside the range). */
    function Shown(): (r: Option<string>)
      reads this
      ensures r.Some? <==> InRange()
      ensures r.Some? ==> r.value in images
      ensures InRange() ==> r == Some(images[current])
    {
      if InRange() then Some(images[current]) else None
    }

    constructor()
      ensures images == [] && current == 0
    {
      images := [];
      current := 0;
    }

    /** `renderizar`: take the vehicle's images and start at the first one. */
    method Show(imgs: seq<string>) returns (main: string)
      modifies this
      ensures images == imgs && current == 0
      ensures imgs != [] ==> InRange()
      ensures main == FirstImage(imgs)
      ensures imgs != [] && imgs[0] != "" ==> Shown() == Some(main)
      ensures imgs == [] ==> Shown() == None && main == DefaultImage
    {
      images := imgs;
      current := 0;
      main := FirstImage(imgs);
    }

    /** `seleccionar`: jump to image `index`, which is not range-checked. */
    method Select(index: int)
      modifies this
      ensures images == old(images) && current == index
      ensures 0 <= index < |images| ==> Shown() == Some(images[index])
      ensures !(0 <= index < |images|) ==> Shown() == None
    {
      current := index;
    }

    /** `anterior`. */
    method Previous()
      modifies this
      ensures images == old(images)
      ensures current == PrevIndex(old(current), |images|)
      ensures old(InRange()) ==> InRange()
    {
      var target := if current > 0 then current - 1 else |images| - 1;
      Select(target);
    }

    /** `siguiente`. */
    method Next()
      modifies this
      ensures images == old(images)
      ensures current == NextIndex(old(current), |images|)
      ensures old(InRange()) ==> InRange()
    {
      var target := if current < |images| - 1 then current + 1 else 0;
      Select(target);
    }
  }
}
