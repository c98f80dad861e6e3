/** Pasted images, src/features/images.js: a paste queues the image and
    inserts a placeholder reference; the upload waits for the next save.
    `Date.now()` is the parameter `now`. */
module Images {
  import opened Wrappers
  import opened Text
  import opened Bytes

  /** A `Blob`: its MIME type and its octets. */
  datatype Blob = Blob(mime: string, bytes: seq<byte>)

  /** A clipboard item: its `type` and the file `getAsFile()` yields. */
  datatype ClipItem = ClipItem(kind: string, file: Blob)

  datatype PendingImage = PendingImage(name: string, blob: Blob)

  const PlaceholderPrefix := ".images/paste-"

  predicate IsImage(item: ClipItem) {
    StartsWith(item.kind, "image/")
  }

  /** The index of the first item whose type starts with `image/`, as `Array.prototype.find` picks it. */
  function FirstImage(items: seq<ClipItem>): (r: Option<nat>)
    ensures r.None? <==> forall k | 0 <= k < |items| :: !IsImage(items[k])
    ensures r.Some? ==> (r.value < |items| && IsImage(items[r.value])
      && forall k | 0 <= k < r.value :: !IsImage(items[k]))
  {
    if items == [] then None
    else if IsImage(items[0]) then Some(0)
    else match FirstImage(items[1..])
      case None => None
      case Some(k) => Some(k + 1)
  }

  /** `png` when the type mentions png, else `jpg` when it mentions jpeg, else `png`. */
  function Extension(mime: string): (ext: string)
    ensures ext == "png" || ext == "jpg"
    ensures ext == "jpg" <==> !Contains(mime, "png") && Contains(mime, "jpeg")
  {
    if Contains(mime, "png") then "png" else if Contains(mime, "jpeg") then "jpg" else "png"
  }

  /** `.images/paste-<now>.<ext>`. */
  function PlaceholderName(now: nat, mime: string): string {
    PlaceholderPrefix + Decimal(now) + "." + Extension(mime)
  }

  /** The text inserted at the cursor. */
  function Markup(name: string): string {
    "![pasted image](" + name + ")"
  }

  /** Pastes at different instants get different placeholders, so each one
      names a single pending image. */
  lemma PlaceholdersDistinct(now1: nat, mime1: string, now2: nat, mime2: string)
    requires now1 != now2
    ensures PlaceholderName(now1, mime1) != PlaceholderName(now2, mime2)
  {
    DecimalInjective(now1, now2);
    var t1, t2 := "." + Extension(mime1), "." + Extension(mime2);
    assert PlaceholderName(now1, mime1) == PlaceholderPrefix + Decimal(now1) + t1;
    assert PlaceholderName(now2, mime2) == PlaceholderPrefix + Decimal(now2) + t2;
    DigitsThenDotDistinct(PlaceholderPrefix, Decimal(now1), t1, Decimal(now2), t2);
  }

  /** Two different digit runs after a common prefix, each closed by a
      non-digit, give different texts. */
  lemma DigitsThenDotDistinct(p: string, d1: string, t1: string, d2: string, t2: string)
    requires d1 != d2
    requires forall k | 0 <= k < |d1| :: IsDigit(d1[k])
    requires forall k | 0 <= k < |d2| :: IsDigit(d2[k])
    requires t1 != [] && !IsDigit(t1[0]) && t2 != [] && !IsDigit(t2[0])
    ensures p + d1 + t1 != p + d2 + t2
  {
    var n1, n2 := p + d1 + t1, p + d2 + t2;
    if |d1| < |d2| {
      assert n1[|p| + |d1|] == t1[0] && n2[|p| + |d1|] == d2[|d1|];
    } else if |d2| < |d1| {
      assert n2[|p| + |d2|] == t2[0] && n1[|p| + |d2|] == d1[|d2|];
    } else {
      assert n1[|p|..|p| + |d1|] == d1 && n2[|p|..|p| + |d2|] == d2;
    }
  }

  class ImagePaste {
    var pending: seq<PendingImage>

    /** Every queued name is a placeholder `.images/paste-...`. */
    ghost predicate Valid()
      reads this
    {
      forall k | 0 <= k < |pending| :: StartsWith(pending[k].name, PlaceholderPrefix)
    }

    constructor ()
      ensures Valid() && pending == []
    {
      pending := [];
    }

    /** `handlePaste`: without clipboard data or an image item nothing
        happens; otherwise one entry is appended and its markup returned
        for insertion. */
    method HandlePaste(clipboard: Option<seq<ClipItem>>, now: nat) returns (inserted: Option<string>)
      requires Valid()
      modifies this
      ensures Valid()
      ensures clipboard.None? || FirstImage(clipboard.value).None? ==>
                pending == old(pending) && inserted.None?
      ensures clipboard.Some? && FirstImage(clipboard.value).Some? ==>
                (var blob := clipboard.value[FirstImage(clipboard.value).value].file;
                 var name := PlaceholderName(now, blob.mime);
                 pending == old(pending) + [PendingImage(name, blob)] && inserted == Some(Markup(name)))
    {
      inserted := None;
      if clipboard.None? {
        return;
      }
      var found := FirstImage(clipboard.value);
      if found.None? {
        return;
      }
      var blob := clipboard.value[found.value].file;
      var name := PlaceholderName(now, blob.mime);
      pending := pending + [PendingImage(name, blob)];
      inserted := Some(Markup(name));
    }
  }
}
