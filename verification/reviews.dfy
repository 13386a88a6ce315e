/** The reviews carousel: avatar files are numbered by the index in their
    file name ("Image 7 - ....jpg"), sorted by it, and turned into review
    cards (name and age from a fixed table, texts and level tags assigned
    round-robin); the cards are doubled up to twelve and cut into slides of
    six. */
module Reviews {
  import opened Optional
  import opened Text
  import opened Seqs
  import opened StableSort

  /* ----- Image index from a file path ----- */

  /** `r` is the part of `p` after its last slash: a slash-free suffix of
      `p` that is all of `p` or follows a slash. */
  predicate SegmentOf(p: string, r: string) {
    && |r| <= |p| && r == p[|p| - |r|..]
    && (forall i :: 0 <= i < |r| ==> r[i] != '/')
    && (|r| < |p| ==> p[|p| - |r| - 1] == '/')
  }

  /** `p.split("/").pop()`: the text after the last slash, or all of `p`. */
  function LastSegment(p: string): (r: string)
    ensures SegmentOf(p, r)
  {
    if |p| == 0 then p
    else if p[|p| - 1] == '/' then ""
    else LastSegment(p[..|p| - 1]) + [p[|p| - 1]]
  }

  /** A path has only one last segment. */
  lemma SegmentUnique(p: string, r1: string, r2: string)
    requires SegmentOf(p, r1) && SegmentOf(p, r2)
    ensures r1 == r2
  {
    if |r2| < |p| {
      SlashBeforeSegment(p, r1, |p| - |r2| - 1);
    }
    if |r1| < |p| {
      SlashBeforeSegment(p, r2, |p| - |r1| - 1);
    }
  }

  /** Every slash of `p` lies before its last segment. */
  lemma SlashBeforeSegment(p: string, r: string, k: int)
    requires SegmentOf(p, r) && 0 <= k < |p| && p[k] == '/'
    ensures k < |p| - |r|
  {
    forall j | |p| - |r| <= j < |p|
      ensures p[j] != '/'
    {
      assert p[j] == r[j - (|p| - |r|)];
    }
  }

  /** Only the text after the last slash counts: what precedes a slash is
      thrown away. */
  lemma LastSegmentAfterSlash(a: string, b: string)
    ensures LastSegment(a + "/" + b) == LastSegment(b)
  {
    var p := a + "/" + b;
    var r := LastSegment(b);
    assert p[|p| - |b|..] == b;
    assert r == p[|p| - |r|..];
    if |r| == |b| {
      assert p[|p| - |r| - 1] == '/';
    } else {
      assert p[|p| - |r| - 1] == b[|b| - |r| - 1];
    }
    SegmentUnique(p, LastSegment(p), r);
  }

  /** A path without slashes is its own last segment. */
  lemma LastSegmentNoSlash(p: string)
    requires forall i :: 0 <= i < |p| ==> p[i] != '/'
    ensures LastSegment(p) == p
  {
    assert p[|p| - |p|..] == p;
    SegmentUnique(p, LastSegment(p), p);
  }

  /** The optional separator `[_\s-]`. */
  predicate IsSeparator(c: char) {
    c == '_' || c == '-' || IsJsWhitespace(c)
  }

  /** `/image[_\s-]?(\d+)/i` matches at `j`: "image" in any ASCII case, then
      a digit, or one separator and then a digit. */
  predicate ImageAt(f: string, j: int) {
    && 0 <= j && j + 5 <= |f|
    && LowerAsciiString(f[j..j + 5]) == "image"
    && ((j + 5 < |f| && IsDigit(f[j + 5])) || (j + 6 < |f| && IsSeparator(f[j + 5]) && IsDigit(f[j + 6])))
  }

  /** Where the captured digits of a match at `j` start: right after
      "image" when a digit follows it, otherwise after the one separator. */
  function CaptureStart(f: string, j: int): (k: int)
    requires ImageAt(f, j)
    ensures j + 5 <= k <= j + 6 && k < |f| && IsDigit(f[k])
    ensures IsDigit(f[j + 5]) <==> k == j + 5
    ensures k == j + 6 ==> IsSeparator(f[j + 5])
  {
    if IsDigit(f[j + 5]) then j + 5 else j + 6
  }

  /** The leftmost match at or after `i`. */
  function FindImage(f: string, i: nat): (r: Option<nat>)
    ensures r.Some? ==> i <= r.value && ImageAt(f, r.value)
    ensures forall k :: i <= k && (r.None? || k < r.value) ==> !ImageAt(f, k)
    decreases |f| - i
  {
    if i + 5 > |f| then None
    else if ImageAt(f, i) then Some(i)
    else FindImage(f, i + 1)
  }

  /** The leftmost digit at or after `i`. */
  function FindDigit(f: string, i: nat): (r: Option<nat>)
    ensures r.Some? ==> i <= r.value < |f| && IsDigit(f[r.value])
    ensures forall k :: i <= k < |f| && (r.None? || k < r.value) ==> !IsDigit(f[k])
    decreases |f| - i
  {
    if i >= |f| then None
    else if IsDigit(f[i]) then Some(i)
    else FindDigit(f, i + 1)
  }

  /** The index a file name carries: the digits after the first "image",
      else the first run of digits, else 0. */
  function FileIndex(f: string): nat {
    match FindImage(f, 0)
    case Some(j) => ParseNat(LeadingDigits(f[CaptureStart(f, j)..]))
    case None =>
      match FindDigit(f, 0)
      case Some(k) => ParseNat(LeadingDigits(f[k..]))
      case None => 0
  }

  /** `getImageIndexFromPath`. */
  function ImageIndex(p: string): nat {
    FileIndex(LastSegment(p))
  }

  /** Directories do not influence the index. */
  lemma ImageIndexIgnoresDirectories(dir: string, file: string)
    ensures ImageIndex(dir + "/" + file) == ImageIndex(file)
  {
    LastSegmentAfterSlash(dir, file);
  }

  /** A file named "Image <n>..." in any directory has index `n`, whatever
      digits the directory names carry. */
  lemma ImageIndexOfName(dir: string, n: nat, ext: string)
    requires forall i :: 0 <= i < |ext| ==> ext[i] != '/'
    requires ext == "" || !IsDigit(ext[0])
    ensures ImageIndex(dir + "/" + ("Image " + NatToString(n) + ext)) == n
  {
    assert "" + "Image " + NatToString(n) + ext == "Image " + NatToString(n) + ext;
    ImageIndexPrefersImage(dir, "", n, ext);
  }

  /** The number after "Image" wins over any digits earlier in the file
      name, as long as no earlier "image" match precedes it: "01 Image 7.jpg"
      has index 7. */
  lemma ImageIndexPrefersImage(dir: string, pre: string, n: nat, ext: string)
    requires forall i :: 0 <= i < |pre| ==> pre[i] != '/'
    requires forall i :: 0 <= i < |ext| ==> ext[i] != '/'
    requires ext == "" || !IsDigit(ext[0])
    requires forall j :: 0 <= j < |pre| ==> !ImageAt(pre + "Image " + NatToString(n) + ext, j)
    ensures ImageIndex(dir + "/" + (pre + "Image " + NatToString(n) + ext)) == n
  {
    var digits := NatToString(n);
    var f := pre + "Image " + digits + ext;
    ImageIndexIgnoresDirectories(dir, f);
    NameHasNoSlash(pre, digits, ext);
    LastSegmentNoSlash(f);
    MatchAfter(pre, digits, ext);
    var r := FindImage(f, 0);
    assert r.Some? && r.value <= |pre|;
    assert r == Some(|pre|);
    LeadingDigitsOfNumeral(digits, ext);
  }

  /** "01 Image 7.jpg" has index 7: the number after "Image" wins over the
      earlier "01". */
  lemma ImageIndexExample()
    ensures ImageIndex("comments/01 Image 7.jpg") == 7
  {
    ExampleName();
    ImageIndexPrefersImage("comments", "01 ", 7, ".jpg");
  }

  lemma ExampleName()
    ensures "comments" + "/" + ("01 " + "Image " + NatToString(7) + ".jpg") == "comments/01 Image 7.jpg"
    ensures forall j :: 0 <= j < 3 ==> !ImageAt("01 " + "Image " + NatToString(7) + ".jpg", j)
  {
    var f := "01 " + "Image " + NatToString(7) + ".jpg";
    assert NatToString(7) == "7";
    assert f == "01 Image 7.jpg";
    NoMatchBefore(f, 3);
  }

  /** No "image" match starts at a position whose character is not an
      "i" in either case. */
  lemma NoMatchBefore(f: string, k: int)
    requires forall j :: 0 <= j < k && j < |f| ==> f[j] != 'i' && f[j] != 'I'
    ensures forall j :: 0 <= j < k ==> !ImageAt(f, j)
  {
    forall j | 0 <= j < k && j + 5 <= |f|
      ensures !ImageAt(f, j)
    {
      assert LowerAsciiString(f[j..j + 5])[0] == LowerAscii(f[j]);
    }
  }

  lemma NameHasNoSlash(pre: string, digits: string, ext: string)
    requires forall i :: 0 <= i < |pre| ==> pre[i] != '/'
    requires IsDigits(digits)
    requires forall i :: 0 <= i < |ext| ==> ext[i] != '/'
    ensures var f := pre + "Image " + digits + ext; forall i :: 0 <= i < |f| ==> f[i] != '/'
  {
    var f := pre + "Image " + digits + ext;
    var m := |pre| + 6;
    forall i | 0 <= i < |f|
      ensures f[i] != '/'
    {
      if i < |pre| {
        assert f[i] == pre[i];
      } else if i < m {
        assert f[i] == "Image "[i - |pre|];
      } else if i < m + |digits| {
        assert f[i] == digits[i - m];
      } else {
        assert f[i] == ext[i - m - |digits|];
      }
    }
  }

  /** "Image " followed by a digit matches where it starts and captures
      from six characters on. */
  lemma MatchAfter(pre: string, digits: string, ext: string)
    requires |digits| > 0 && IsDigits(digits)
    ensures var f := pre + "Image " + digits + ext;
      var j := |pre|;
      ImageAt(f, j) && CaptureStart(f, j) == j + 6 && f[j + 6..] == digits + ext
  {
    var f := pre + "Image " + digits + ext;
    var j := |pre|;
    assert f[j..j + 5] == "Image";
    assert LowerAsciiString("Image") == "image";
    assert f[j + 5] == ' ' && f[j + 6] == digits[0];
    assert f[j + 6..] == digits + ext;
  }

  /** Without an "image" match the first digit run decides. */
  lemma ImageIndexFallback(f: string, k: nat)
    requires forall i :: 0 <= i < |f| ==> f[i] != '/'
    requires forall j :: 0 <= j < |f| ==> !ImageAt(f, j)
    requires k < |f| && IsDigit(f[k]) && forall i :: 0 <= i < k ==> !IsDigit(f[i])
    ensures ImageIndex(f) == ParseNat(LeadingDigits(f[k..]))
  {
    LastSegmentNoSlash(f);
    assert FindImage(f, 0).None?;
    assert FindDigit(f, 0) == Some(k);
  }

  /** A name with no digit at all has index 0. */
  lemma ImageIndexNoDigits(f: string)
    requires forall i :: 0 <= i < |f| ==> f[i] != '/' && !IsDigit(f[i])
    ensures ImageIndex(f) == 0
  {
    LastSegmentNoSlash(f);
    forall j | 0 <= j < |f|
      ensures !ImageAt(f, j)
    {
    }
    assert FindImage(f, 0).None?;
  }

  /* ----- Avatars ----- */

  /** An avatar file: its index and its URL. */
  datatype Avatar = Avatar(idx: nat, url: string)

  function AvatarOf(entry: (string, string)): Avatar {
    Avatar(ImageIndex(entry.0), entry.1)
  }

  function IdxKey(a: Avatar): int {
    a.idx
  }

  /** `AVATARS_WITH_INDEX`: the (path, url) entries indexed and sorted by
      index, ties in entry order. */
  function AvatarsWithIndex(entries: seq<(string, string)>): (r: seq<Avatar>)
    ensures |r| == |entries|
    ensures Sorted(r, IdxKey)
    ensures multiset(r) == multiset(Project(entries, AvatarOf))
    ensures forall k :: KeyFilter(r, IdxKey, k) == KeyFilter(Project(entries, AvatarOf), IdxKey, k)
  {
    var avatars := Project(entries, AvatarOf);
    SortStableAll(avatars, IdxKey);
    Sort(avatars, IdxKey)
  }

  /* ----- Review cards ----- */

  datatype Review = Review(
    id: int,
    name: string,
    age: string,
    rating: int,
    review: string,
    course: string,
    avatar: string)

  /** `PEOPLE_META_MAP`: name and age by image index. */
  const PeopleMeta: map<nat, (string, string)> := map[
    1 := ("Abdumajidov Sodiqjon", "19 yosh"),
    2 := ("Shavkatova Sevinch", "18 yosh"),
    3 := ("Sultonova Zebo", "20 yosh"),
    4 := ("\U{0410}\U{043C}\U{0438}\U{0440}\U{0438}\U{0434}\U{0434}\U{0438}\U{043D}\U{043E}\U{0432}\U{0430} \U{041D}\U{0430}\U{0440}\U{0433}\U{0438}\U{0437}\U{0430}", "16 \U{0451}\U{0448}"),
    5 := ("Firuz", "26 yosh"),
    6 := ("\U{041D}\U{0438}\U{044F}\U{0437}\U{043E}\U{0432} \U{0410}\U{043B}\U{0438}\U{0445}\U{0430}\U{043D}", "18 \U{0451}\U{0448}"),
    7 := ("Kamalov Khusan", "23 yosh"),
    8 := ("Garapshina Diana", "16 yosh"),
    9 := ("Avazov Yusuf", "20 yosh"),
    10 := ("Akhmedova Malika", "22 yosh"),
    11 := ("Abdumannopova Malika", "16 yosh")
  ]

  /** The name and age of an index, "Unknown" and "" for an unlisted one. */
  function MetaFor(idx: nat): (r: (string, string))
    ensures 1 <= idx <= 11 ==> r == PeopleMeta[idx]
    ensures !(1 <= idx <= 11) ==> r == ("Unknown", "")
  {
    if idx in PeopleMeta then PeopleMeta[idx] else ("Unknown", "")
  }

  /** The level tags, assigned round-robin. */
  const Tags: seq<string> := [
    "Begginer",
    "Intermediate",
    "Upper Intermediate",
    "IELTS Preparation",
    "TOEFL Preparation",
    "Advanced"
  ]

  const DefaultReviewText := "Classes are interactive and interesting. My speaking improved quickly."

  /** What the translation of `review_texts` returns. */
  datatype Translation = TextList(items: seq<string>) | Text(s: string) | OtherValue

  /** `genericTexts`: a non-empty list as is, a non-blank text alone,
      otherwise the default sentence. Never empty. */
  function GenericTexts(t: Translation): (r: seq<string>)
    ensures |r| > 0
    ensures t.TextList? && |t.items| > 0 ==> r == t.items
    ensures t.Text? && Trim(t.s) != "" ==> r == [t.s]
    ensures !(t.TextList? && |t.items| > 0) && !(t.Text? && Trim(t.s) != "") ==> r == [DefaultReviewText]
  {
    if t.TextList? && |t.items| > 0 then t.items
    else if t.Text? && Trim(t.s) != "" then [t.s]
    else [DefaultReviewText]
  }

  /** The card of the `i`-th avatar. */
  function PersonCard(a: Avatar, i: nat, texts: seq<string>): Review
    requires |texts| > 0
  {
    var meta := MetaFor(a.idx);
    Review(i + 1, meta.0, meta.1, 5, texts[i % |texts|], Tags[i % |Tags|], a.url)
  }

  /** `people`: one card per sorted avatar. */
  function People(avatars: seq<Avatar>, t: Translation): (r: seq<Review>)
    ensures |r| == |avatars|
    ensures forall i :: 0 <= i < |r| ==>
      && r[i].id == i + 1 && r[i].rating == 5 && r[i].avatar == avatars[i].url
      && r[i].review == GenericTexts(t)[i % |GenericTexts(t)|] && r[i].course == Tags[i % 6]
      && (r[i].name, r[i].age) == MetaFor(avatars[i].idx)
  {
    var texts := GenericTexts(t);
    seq(|avatars|, i requires 0 <= i < |avatars| => PersonCard(avatars[i], i, texts))
  }

  /** Texts go round: cards whose positions differ by the number of texts
      share a text, and the first cards take the texts in order. */
  lemma ReviewsRoundRobin(avatars: seq<Avatar>, t: Translation, i: nat)
    requires i < |avatars|
    ensures var n := |GenericTexts(t)|;
      && (i + n < |avatars| ==> People(avatars, t)[i + n].review == People(avatars, t)[i].review)
      && (i < n ==> People(avatars, t)[i].review == GenericTexts(t)[i])
  {
    var texts := GenericTexts(t);
    var p := People(avatars, t);
    if i + |texts| < |avatars| {
      assert p[i + |texts|].review == texts[(i + |texts|) % |texts|];
      assert p[i].review == texts[i % |texts|];
      ShiftedIndex(texts, i);
    }
    if i < |texts| {
      assert p[i].review == texts[i % |texts|];
      ModOfSmall(i, |texts|);
    }
  }

  /** Level tags go round: cards six apart share a tag, and the first six
      cards take the tags in order. */
  lemma TagsRoundRobin(avatars: seq<Avatar>, t: Translation, i: nat)
    requires i < |avatars|
    ensures i + 6 < |avatars| ==> People(avatars, t)[i + 6].course == People(avatars, t)[i].course
    ensures i < 6 ==> People(avatars, t)[i].course == Tags[i]
  {
    if i + 6 < |avatars| {
      ModShift(i, 6);
    }
    if i < 6 {
      ModOfSmall(i, 6);
    }
  }

  lemma ShiftedIndex<T>(s: seq<T>, i: nat)
    requires |s| > 0
    ensures s[(i + |s|) % |s|] == s[i % |s|]
  {
    ModShift(i, |s|);
  }

  lemma ModOfSmall(i: nat, n: nat)
    requires i < n
    ensures i % n == i
  {
    var q := i / n;
    var m := i % n;
    assert q * n == i - m;
    MulSmall(q, n);
  }

  lemma ModShift(i: nat, n: nat)
    requires n > 0
    ensures (i + n) % n == i % n
  {
    var q := i / n;
    var m := i % n;
    var j := i + n;
    var q' := j / n;
    var m' := j % n;
    assert (q + 1 - q') * n == m' - m;
    MulSmall(q + 1 - q', n);
  }
  
  lemma {:induction false} MulSmall(k: int, n: int)
    requires n > 0 && -n < k * n < n
    ensures k == 0
  {
    if k >= 1 {
      MulAtLeast(k, n);
    } else if k <= -1 {
      MulAtLeast(-k, n);
    }
  }
  
  lemma {:induction false} MulAtLeast(k: int, n: int)
    requires k >= 1 && n > 0
    ensures k * n >= n
  {
    if k > 1 {
      MulAtLeast(k - 1, n);
      assert k * n == (k - 1) * n + n;
    }
  }

  /** `reviews`: the cards twice over, cut at twelve and renumbered. */
  function ReviewPool(people: seq<Review>): (r: seq<Review>)
    ensures |r| == if 2 * |people| < 12 then 2 * |people| else 12
    ensures forall i :: 0 <= i < |r| ==> r[i] == people[i % |people|].(id := i + 1)
  {
    var doubled := people + people;
    var pool := if |doubled| < 12 then doubled else doubled[..12];
    DoubledAll(people);
    seq(|pool|, i requires 0 <= i < |pool| => pool[i].(id := i + 1))
  }

  /** Position `i` of a sequence written twice is position `i % |s|`. */
  lemma DoubledAll<T>(s: seq<T>)
    ensures forall i :: 0 <= i < 2 * |s| ==> (s + s)[i] == s[i % |s|]
  {
    forall i | 0 <= i < 2 * |s|
      ensures (s + s)[i] == s[i % |s|]
    {
      if i < |s| {
        ModOfSmall(i, |s|);
      } else {
        ModOfSmall(i - |s|, |s|);
        ModShift(i - |s|, |s|);
      }
    }
  }

  /* ----- Slides ----- */

  function Min(a: int, b: int): int {
    if a <= b then a else b
  }

  /** The concatenation of the slides. */
  function Flatten<T>(ss: seq<seq<T>>): seq<T> {
    if |ss| == 0 then [] else Flatten(ss[..|ss| - 1]) + ss[|ss| - 1]
  }

  /** Slide `k` holds the reviews from position `6 * k` up to six of them. */
  ghost predicate Chunked<T>(reviews: seq<T>, slides: seq<seq<T>>) {
    forall k :: 0 <= k < |slides| ==>
      6 * k < |reviews| && slides[k] == reviews[6 * k..Min(6 * k + 6, |reviews|)]
  }

  /** `slides`: consecutive chunks of six; the last may be shorter. */
  method Slides<T>(reviews: seq<T>) returns (slides: seq<seq<T>>)
    ensures Flatten(slides) == reviews
    ensures |slides| == (|reviews| + 5) / 6
    ensures forall k :: 0 <= k < |slides| ==> 0 < |slides[k]| <= 6
    ensures forall k :: 0 <= k < |slides| - 1 ==> |slides[k]| == 6
    ensures forall k :: 0 <= k < |slides| ==> slides[k] == reviews[6 * k..Min(6 * k + 6, |reviews|)]
  {
    slides := [];
    var i := 0;
    while i < |reviews|
      invariant i == 6 * |slides|
      invariant |slides| > 0 ==> i - 6 < |reviews|
      invariant Chunked(reviews, slides)
      decreases |reviews| - i
    {
      slides := slides + [reviews[i..Min(i + 6, |reviews|)]];
      i := i + 6;
    }
    ChunkCount(|reviews|, |slides|);
    ChunkedFlatten(reviews, slides);
    ChunkedSizes(reviews, slides);
  }

  /** The chunks concatenate to the reviews they cover. */
  lemma {:induction false} ChunkedFlatten<T>(reviews: seq<T>, slides: seq<seq<T>>)
    requires Chunked(reviews, slides)
    ensures Flatten(slides) == reviews[..Min(6 * |slides|, |reviews|)]
  {
    if |slides| > 0 {
      var init := slides[..|slides| - 1];
      var last := slides[|slides| - 1];
      assert slides == init + [last];
      assert Chunked(reviews, init) by {
        forall k | 0 <= k < |init|
          ensures 6 * k < |reviews| && init[k] == reviews[6 * k..Min(6 * k + 6, |reviews|)]
        {
          assert init[k] == slides[k];
        }
      }
      ChunkedFlatten(reviews, init);
      FlattenSnoc(init, last);
      var j := 6 * |init|;
      assert reviews[..Min(j + 6, |reviews|)] == reviews[..j] + reviews[j..Min(j + 6, |reviews|)];
    }
  }

  /** Every chunk has one to six reviews, and all but the last have six. */
  lemma ChunkedSizes<T>(reviews: seq<T>, slides: seq<seq<T>>)
    requires Chunked(reviews, slides)
    ensures forall k :: 0 <= k < |slides| ==> 0 < |slides[k]| <= 6
    ensures forall k :: 0 <= k < |slides| - 1 ==> |slides[k]| == 6
  {
    forall k | 0 <= k < |slides| - 1
      ensures |slides[k]| == 6
    {
      assert 6 * (k + 1) < |reviews|;
    }
  }

  lemma FlattenSnoc<T>(ss: seq<seq<T>>, x: seq<T>)
    ensures Flatten(ss + [x]) == Flatten(ss) + x
  {
    assert (ss + [x])[..|ss|] == ss;
  }

  /** `c` chunks of six, the last one non-empty, cover `n` items exactly when
      `c` is `n / 6` rounded up. */
  lemma ChunkCount(n: nat, c: nat)
    requires 6 * c >= n && (c > 0 ==> 6 * c - 6 < n)
    ensures c == (n + 5) / 6
  {
  }

  /** The whole deck: six or more cards fill exactly two slides; with
      exactly six, the second slide repeats the first one's cards under new
      ids; with fewer, every card appears twice. */
  lemma DeckOfTwelve(people: seq<Review>)
    ensures |people| >= 6 ==> |ReviewPool(people)| == 12 && (|ReviewPool(people)| + 5) / 6 == 2
    ensures |people| == 6 ==> forall i :: 0 <= i < 6 ==>
      ReviewPool(people)[i + 6] == ReviewPool(people)[i].(id := i + 7)
    ensures 0 < |people| < 6 ==> forall i :: 0 <= i < |people| ==>
      ReviewPool(people)[i + |people|] == ReviewPool(people)[i].(id := i + |people| + 1)
  {
    var n := |people|;
    var pool := ReviewPool(people);
    forall i | 0 <= i < n && n <= 6
      ensures pool[i + n] == pool[i].(id := i + n + 1)
    {
      ModShift(i, n);
      ModOfSmall(i, n);
    }
  }
}
