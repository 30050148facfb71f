/**
 * The pure helpers of frontend/src/components/assets/AssetDetails.js: the
 * `isImage` test on an attachment's file name, and the label and colour of
 * the status badge.
 *
 * Case mapping is ASCII: `toLowerCase` and `toUpperCase` change only `A`-`Z`
 * and `a`-`z` here.
 */
module AssetDetails {
  import opened AssetModel

  function LowerChar(c: char): char {
    if 'A' <= c <= 'Z' then (c as int + 32) as char else c
  }

  function UpperChar(c: char): char {
    if 'a' <= c <= 'z' then (c as int - 32) as char else c
  }

  predicate IsUpper(c: char) {
    'A' <= c <= 'Z'
  }

  /**
   * `toLowerCase`: no capital is left, every other character is kept, and a
   * capital becomes a letter that is equal to it up to case.
   */
  function ToLower(s: string): (r: string)
    ensures |r| == |s|
    ensures forall i :: 0 <= i < |r| ==> !IsUpper(r[i])
    ensures forall i :: 0 <= i < |s| && !IsUpper(s[i]) ==> r[i] == s[i]
    ensures forall i :: 0 <= i < |s| && IsUpper(s[i]) ==> 'a' <= r[i] <= 'z' && UpperChar(r[i]) == s[i]
  {
    seq(|s|, i requires 0 <= i < |s| => LowerChar(s[i]))
  }

  /** Lowering a lowered text changes nothing. */
  lemma ToLowerIdempotent(s: string)
    ensures ToLower(ToLower(s)) == ToLower(s)
  {
  }

  /** Lowering leaves the dots where they were. */
  lemma ToLowerKeepsDots(s: string)
    ensures forall i :: 0 <= i < |s| ==> (ToLower(s)[i] == '.' <==> s[i] == '.')
  {
  }

  /** Where the text after the last dot starts: just past that dot, or 0 when there is none. */
  function SegmentStart(s: string): (k: nat)
    ensures k <= |s|
    ensures forall i :: k <= i < |s| ==> s[i] != '.'
    ensures k > 0 ==> s[k - 1] == '.'
    decreases |s|
  {
    if s == [] then 0
    else if s[|s| - 1] == '.' then |s|
    else SegmentStart(s[..|s| - 1])
  }

  /** Only one position has no dot after it and a dot (or the start) just before it. */
  lemma SegmentStartUnique(s: string, k: nat)
    requires k <= |s|
    requires forall i :: k <= i < |s| ==> s[i] != '.'
    requires k > 0 ==> s[k - 1] == '.'
    ensures SegmentStart(s) == k
  {
  }

  /** `split('.').pop()`: the text after the last dot, or the whole name when it has none. */
  function LastSegment(s: string): (r: string)
    ensures '.' !in r
  {
    s[SegmentStart(s)..]
  }

  const ImageExtensions: set<string> := {"jpg", "jpeg", "png", "gif", "bmp", "webp"}

  predicate IsImage(fileName: string) {
    ToLower(LastSegment(fileName)) in ImageExtensions
  }

  /** A name ending in `.ext`, with `ext` dot-free, has `ext` as its last segment. */
  lemma LastSegmentOfExtension(stem: string, ext: string)
    requires '.' !in ext
    ensures LastSegment(stem + "." + ext) == ext
  {
    var s := stem + "." + ext;
    assert s[|stem|] == '.';
    assert forall i :: |stem| + 1 <= i < |s| ==> s[i] == ext[i - |stem| - 1];
    SegmentStartUnique(s, |stem| + 1);
    assert s[|stem| + 1..] == ext;
  }

  /** A name without a dot is its own last segment. */
  lemma LastSegmentWithoutDot(s: string)
    requires '.' !in s
    ensures LastSegment(s) == s
  {
    SegmentStartUnique(s, 0);
  }

  /** Only the final extension decides, in any case. */
  lemma IsImageByExtension(stem: string, ext: string)
    requires '.' !in ext
    ensures IsImage(stem + "." + ext) <==> ToLower(ext) in ImageExtensions
  {
    LastSegmentOfExtension(stem, ext);
  }

  /** Lowering commutes with taking the last segment, since it leaves dots alone. */
  lemma LastSegmentOfLower(s: string)
    ensures LastSegment(ToLower(s)) == ToLower(LastSegment(s))
  {
    var k := SegmentStart(s);
    var t := ToLower(s);
    SegmentStartUnique(t, k);
    assert t[k..] == ToLower(s[k..]);
  }

  /** `isImage` ignores case: names equal up to case get the same answer. */
  lemma IsImageIgnoresCase(a: string, b: string)
    requires ToLower(a) == ToLower(b)
    ensures IsImage(a) == IsImage(b)
  {
    LastSegmentOfLower(a);
    LastSegmentOfLower(b);
  }

  /** Only the final extension counts: `a.png.pdf` is not an image, `a.pdf.png` is. */
  lemma FinalExtensionExamples()
    ensures !IsImage("a.png.pdf") && IsImage("a.pdf.png")
  {
    assert "a.png.pdf" == "a.png" + "." + "pdf";
    assert ToLower("pdf") == "pdf";
    LastSegmentOfExtension("a.png", "pdf");
    assert "a.pdf.png" == "a.pdf" + "." + "png";
    assert ToLower("png") == "png";
    LastSegmentOfExtension("a.pdf", "png");
  }

  /** A name without a dot is judged whole: `PNG` is an image, `readme` is not. */
  lemma NoDotExamples()
    ensures IsImage("PNG") && !IsImage("readme")
  {
    LastSegmentWithoutDot("PNG");
    assert ToLower("PNG") == "png";
    LastSegmentWithoutDot("readme");
    assert ToLower("readme") == "readme";
  }

  /**
   * `status.charAt(0).toUpperCase() + status.slice(1)`: the label differs
   * from the status at most in the first character and does not start with
   * a small letter; a status not starting with one is its own label.
   */
  function StatusLabel(status: string): (r: string)
    ensures |r| == |status|
    ensures forall i :: 1 <= i < |status| ==> r[i] == status[i]
    ensures |r| > 0 ==> !('a' <= r[0] <= 'z')
    ensures r == status <==> status == [] || !('a' <= status[0] <= 'z')
  {
    if status == [] then [] else [UpperChar(status[0])] + status[1..]
  }

  /** The label equals the status up to case. */
  lemma StatusLabelKeepsLetters(status: string)
    ensures ToLower(StatusLabel(status)) == ToLower(status)
  {
  }

  /** Applying the label to its own output changes nothing. */
  lemma StatusLabelIdempotent(status: string)
    ensures StatusLabel(StatusLabel(status)) == StatusLabel(status)
  {
  }

  /** The four stored statuses get four different labels, each their name capitalised. */
  lemma StatusLabelsOfEnum(s: Status, t: Status)
    ensures StatusLabel(StatusName(s)) == match s
      case Available => "Available"
      case Assigned => "Assigned"
      case Maintenance => "Maintenance"
      case Retired => "Retired"
    ensures StatusLabel(StatusName(s)) == StatusLabel(StatusName(t)) ==> s == t
  {
    assert |StatusLabel(StatusName(s))| == |StatusName(s)| && |StatusLabel(StatusName(t))| == |StatusName(t)|;
    match s
    case Available => assert StatusLabel("available") == [UpperChar('a')] + "vailable";
    case Assigned => assert StatusLabel("assigned") == [UpperChar('a')] + "ssigned";
    case Maintenance => assert StatusLabel("maintenance") == [UpperChar('m')] + "aintenance";
    case Retired => assert StatusLabel("retired") == [UpperChar('r')] + "etired";
  }

  datatype BadgeColour = Green | Blue | Yellow | Red

  /** The badge colour of any `status` text; unknown text falls to red. */
  function BadgeColourOf(status: string): (c: BadgeColour)
    ensures c == Red <==> status != "available" && status != "assigned" && status != "maintenance"
  {
    if status == "available" then Green
    else if status == "assigned" then Blue
    else if status == "maintenance" then Yellow
    else Red
  }

  /** On the stored statuses the colour is determined by, and determines, the status. */
  lemma BadgeColourOfStatus(s: Status, t: Status)
    ensures BadgeColourOf(StatusName(s)) == match s
      case Available => Green
      case Assigned => Blue
      case Maintenance => Yellow
      case Retired => Red
    ensures BadgeColourOf(StatusName(s)) == BadgeColourOf(StatusName(t)) ==> s == t
  {
  }
}
