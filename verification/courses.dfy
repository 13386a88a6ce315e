/** The course catalogue of the landing page: the flat rows of the skill
    endpoint (one row per course feature, each carrying its price list) are
    turned into course cards. Only rows of active price lists count; rows are
    grouped by price-list id in order of first appearance; features with the
    same name are merged (status by "or", order by minimum); courses and then
    features are sorted by order with a stable sort; the first three plans get
    a fixed struck-through "original price". */
module Courses {
  import opened Optional
  import opened Text
  import opened Seqs
  import opened AssocList
  import opened StableSort

  /* ----- API rows ----- */

  /** A field available as `X`, `X_ru` and `X_uz`; `None` is a missing or
      `null` field. */
  datatype Localized = Localized(base: Option<string>, ru: Option<string>, uz: Option<string>)

  /** A price list (one course). `order` is `Number(order)` when that is
      finite, `None` otherwise. */
  datatype PriceList = PriceList(
    id: string,
    course: Localized,
    description: Localized,
    price: string,
    isActive: bool,
    order: Option<int>)

  /** One feature row of the skill endpoint. */
  datatype SkillRow = SkillRow(
    id: string,
    name: Localized,
    status: bool,
    order: Option<int>,
    priceList: PriceList)

  /* ----- View model ----- */

  datatype Feature = Feature(name: string, status: bool)

  /** A course card. `price` is the API's price text, which the page renders
      with locale separators and the "sum" suffix; `originalPrice` is the
      struck-through anchor price, as a number. */
  datatype Course = Course(
    id: string,
    title: string,
    price: string,
    originalPrice: Option<int>,
    duration: string,
    students: string,
    lessons: string,
    description: string,
    features: seq<Feature>)

  /** What is accumulated per feature name. */
  datatype FeatureMeta = FeatureMeta(status: bool, order: int)

  /** What is accumulated per price-list id; `features` is an insertion-ordered
      map from feature name. */
  datatype Agg = Agg(
    title: string,
    description: string,
    price: string,
    originalPrice: Option<int>,
    courseOrder: int,
    features: seq<(string, FeatureMeta)>)

  const MissingOrder := 9999
  const NoTitle := "No Title"
  const NoDescription := "No description available."
  const DefaultDuration := "10 weeks"
  const DefaultLessons := "40 lessons"
  const DefaultStudents := "5000+"

  /** The hard-coded anchor prices, by plan order. */
  const StaticOriginalPriceByOrder: map<int, int> := map[1 := 1180000, 2 := 1780000, 3 := 2580000]

  /* ----- Localisation ----- */

  datatype Language = Russian | Uzbek | Default

  /** The language a tag selects: its lower-cased form starts with "ru" or
      "uz", or neither. */
  function LanguageOf(tag: string): Language {
    var lang := LowerAsciiString(tag);
    if StartsWith(lang, "ru") then Russian
    else if StartsWith(lang, "uz") then Uzbek
    else Default
  }

  /** The field `pickLocalized` looks up as its language key. */
  function Variant(f: Localized, language: Language): Option<string> {
    match language
    case Russian => f.ru
    case Uzbek => f.uz
    case Default => f.base
  }

  /** `pickLocalized`: `obj[base] ?? obj[key] ?? obj[base] ?? ""`. The plain
      field wins whenever it is present; the language variant is only a
      fallback for a missing plain field. */
  function PickLocalized(f: Localized, tag: string): (r: string)
    ensures f.base.Some? ==> r == f.base.value
    ensures f.base.None? && LanguageOf(tag) == Russian ==> r == f.ru.GetOr("")
    ensures f.base.None? && LanguageOf(tag) == Uzbek ==> r == f.uz.GetOr("")
    ensures f.base.None? && LanguageOf(tag) == Default ==> r == ""
  {
    f.base.GetOr(Variant(f, LanguageOf(tag)).GetOr(f.base.GetOr("")))
  }

  /** A language tag is matched without regard to case. */
  lemma LanguageOfIgnoresCase(tag: string)
    ensures LanguageOf(LowerAsciiString(tag)) == LanguageOf(tag)
  {
    var lower := LowerAsciiString(tag);
    assert LowerAsciiString(lower) == lower;
  }

  /** JavaScript truthiness of an optional string. */
  predicate Truthy(o: Option<string>) {
    o.Some? && o.value != ""
  }

  /** The card title; never empty. */
  function TitleOf(pl: PriceList, tag: string): (r: string)
    ensures r != ""
    ensures PickLocalized(pl.course, tag) != "" ==> r == PickLocalized(pl.course, tag)
    ensures PickLocalized(pl.course, tag) == "" ==> r == NoTitle
  {
    var t := PickLocalized(pl.course, tag);
    if t == "" then NoTitle else t
  }

  /** The card description; never empty. */
  function DescriptionOf(pl: PriceList, tag: string): (r: string)
    ensures r != ""
    ensures PickLocalized(pl.description, tag) != "" ==> r == PickLocalized(pl.description, tag)
    ensures PickLocalized(pl.description, tag) == "" ==> r == NoDescription
  {
    var d := PickLocalized(pl.description, tag);
    if d == "" then NoDescription else d
  }

  /** The feature name of a row, `None` when the row is skipped: the localized
      pick, then `name`, `name_ru`, `name_uz`, whichever is first non-empty. */
  function FeatureName(r: SkillRow, tag: string): (n: Option<string>)
    ensures n.Some? <==> Truthy(r.name.base) || Truthy(r.name.ru) || Truthy(r.name.uz)
    ensures n.Some? ==> n.value != "" && (n == r.name.base || n == r.name.ru || n == r.name.uz)
    ensures PickLocalized(r.name, tag) != "" ==> n == Some(PickLocalized(r.name, tag))
    ensures PickLocalized(r.name, tag) == "" && Truthy(r.name.ru) ==> n == r.name.ru
    ensures PickLocalized(r.name, tag) == "" && !Truthy(r.name.ru) && Truthy(r.name.uz) ==> n == r.name.uz
  {
    var picked := PickLocalized(r.name, tag);
    if picked != "" then Some(picked)
    else if Truthy(r.name.base) then r.name.base
    else if Truthy(r.name.ru) then r.name.ru
    else if Truthy(r.name.uz) then r.name.uz
    else None
  }

  /* ----- Prices and orders ----- */

  /** `STATIC_ORIGINAL_PRICE_BY_ORDER[order]` as `formatPrice` looks it up. */
  function OriginalPriceFor(order: Option<int>): (r: Option<int>)
    ensures r.Some? <==> order == Some(1) || order == Some(2) || order == Some(3)
    ensures order == Some(1) ==> r == Some(1180000)
    ensures order == Some(2) ==> r == Some(1780000)
    ensures order == Some(3) ==> r == Some(2580000)
  {
    if order.Some? && order.value in StaticOriginalPriceByOrder
    then Some(StaticOriginalPriceByOrder[order.value])
    else None
  }

  /** The sort key of a course: its order, or 9999 when not finite. */
  function CourseOrderOf(pl: PriceList): int {
    pl.order.GetOr(MissingOrder)
  }

  /* ----- Merging features ----- */

  /** One update of the feature map entry `prev` with row `r`. */
  function MergeMeta(prev: Option<FeatureMeta>, r: SkillRow): FeatureMeta {
    var status := if prev.Some? then prev.value.status || r.status else r.status;
    var candidate := if r.order.Some? then r.order.value
                     else if prev.Some? then prev.value.order
                     else MissingOrder;
    var bound := if prev.Some? then prev.value.order else candidate;
    FeatureMeta(status, if candidate <= bound then candidate else bound)
  }

  /** The loop body's feature part: rows without a name are skipped. */
  function FeatureStep(m: seq<(string, FeatureMeta)>, r: SkillRow, tag: string): seq<(string, FeatureMeta)> {
    match FeatureName(r, tag)
    case None => m
    case Some(n) => Put(m, n, MergeMeta(Get(m, n), r))
  }

  /** The feature map after processing `rows` in order. */
  function FoldFeatures(rows: seq<SkillRow>, tag: string): seq<(string, FeatureMeta)> {
    if |rows| == 0 then []
    else FeatureStep(FoldFeatures(rows[..|rows| - 1], tag), rows[|rows| - 1], tag)
  }

  /** The rows named `n`, in order. */
  function NamedRows(rows: seq<SkillRow>, n: string, tag: string): (r: seq<SkillRow>)
    ensures forall i :: 0 <= i < |r| ==> r[i] in rows && FeatureName(r[i], tag) == Some(n)
    ensures forall i :: 0 <= i < |rows| && FeatureName(rows[i], tag) == Some(n) ==> rows[i] in r
  {
    if |rows| == 0 then []
    else
      var init := rows[..|rows| - 1];
      assert rows == init + [rows[|rows| - 1]];
      NamedRows(init, n, tag) + (if FeatureName(rows[|rows| - 1], tag) == Some(n) then [rows[|rows| - 1]] else [])
  }

  /** The merged entry of one name, from the rows carrying it. */
  function FoldMeta(rows: seq<SkillRow>): Option<FeatureMeta> {
    if |rows| == 0 then None
    else Some(MergeMeta(FoldMeta(rows[..|rows| - 1]), rows[|rows| - 1]))
  }

  /** The feature map holds one entry per name, and the entry of a name is
      the merge of exactly the rows carrying that name. */
  lemma {:induction false} FoldFeaturesGet(rows: seq<SkillRow>, tag: string, n: string)
    ensures Distinct(Keys(FoldFeatures(rows, tag)))
    ensures Get(FoldFeatures(rows, tag), n) == FoldMeta(NamedRows(rows, n, tag))
  {
    if |rows| > 0 {
      var init := rows[..|rows| - 1];
      var last := rows[|rows| - 1];
      FoldFeaturesGet(init, tag, n);
      var named := NamedRows(init, n, tag);
      var prev := FoldFeatures(init, tag);
      if FeatureName(last, tag).Some? {
        var n' := FeatureName(last, tag).value;
        PutGet(prev, n', MergeMeta(Get(prev, n'), last), n);
        PutDistinct(prev, n', MergeMeta(Get(prev, n'), last));
      }
      if FeatureName(last, tag) == Some(n) {
        assert (named + [last])[..|named|] == named;
      } else {
        assert named + [] == named;
      }
    }
  }

  /** Merged status is the "or" of the statuses; a merge exists exactly when
      some row does. */
  lemma {:induction false} FoldMetaStatus(rows: seq<SkillRow>)
    ensures FoldMeta(rows).Some? <==> |rows| > 0
    ensures FoldMeta(rows).Some? ==>
      (FoldMeta(rows).value.status <==> exists i :: 0 <= i < |rows| && rows[i].status)
  {
    if |rows| > 0 {
      var init := rows[..|rows| - 1];
      FoldMetaStatus(init);
      if FoldMeta(rows).value.status {
        if !rows[|rows| - 1].status {
          var i :| 0 <= i < |init| && init[i].status;
          assert rows[i] == init[i];
        }
      } else {
        forall i | 0 <= i < |rows|
          ensures !rows[i].status
        {
          if i < |init| {
            assert rows[i] == init[i];
          }
        }
      }
    }
  }

  /** Merged order: no larger than any finite order of the rows (nor than
      9999 when the first row has none), and equal to one of these. */
  lemma {:induction false} FoldMetaOrder(rows: seq<SkillRow>)
    requires |rows| > 0
    ensures FoldMeta(rows).Some?
    ensures forall i :: 0 <= i < |rows| && rows[i].order.Some? ==> FoldMeta(rows).value.order <= rows[i].order.value
    ensures rows[0].order.None? ==> FoldMeta(rows).value.order <= MissingOrder
    ensures || (exists i :: 0 <= i < |rows| && rows[i].order == Some(FoldMeta(rows).value.order))
            || (rows[0].order.None? && FoldMeta(rows).value.order == MissingOrder)
  {
    var init := rows[..|rows| - 1];
    var last := rows[|rows| - 1];
    if |init| > 0 {
      FoldMetaOrder(init);
      var p := FoldMeta(init).value;
      var m := FoldMeta(rows).value;
      assert rows[0] == init[0];
      forall i | 0 <= i < |rows| && rows[i].order.Some?
        ensures m.order <= rows[i].order.value
      {
        if i < |init| {
          assert rows[i] == init[i];
        }
      }
      if m.order != p.order {
        assert rows[|rows| - 1].order == Some(m.order);
      } else if exists i :: 0 <= i < |init| && init[i].order == Some(p.order) {
        var i :| 0 <= i < |init| && init[i].order == Some(p.order);
        assert rows[i] == init[i];
      }
    }
  }

  /** Feature merging as a whole: within the rows of one course, a name has an
      entry exactly when some row carries it; its status is the "or" over
      those rows and its order their least finite order (or 9999 when the
      first of them has none). */
  lemma FeatureMerge(rows: seq<SkillRow>, tag: string, n: string)
    ensures Distinct(Keys(FoldFeatures(rows, tag)))
    ensures Get(FoldFeatures(rows, tag), n).Some? <==> exists i :: 0 <= i < |rows| && FeatureName(rows[i], tag) == Some(n)
    ensures Get(FoldFeatures(rows, tag), n).Some? ==>
      var m := Get(FoldFeatures(rows, tag), n).value;
      var named := NamedRows(rows, n, tag);
      && (m.status <==> exists i :: 0 <= i < |named| && named[i].status)
      && (forall i :: 0 <= i < |named| && named[i].order.Some? ==> m.order <= named[i].order.value)
      && ((exists i :: 0 <= i < |named| && named[i].order == Some(m.order))
          || (named[0].order.None? && m.order == MissingOrder))
  {
    FoldFeaturesGet(rows, tag, n);
    var named := NamedRows(rows, n, tag);
    FoldMetaStatus(named);
    if |named| > 0 {
      FoldMetaOrder(named);
      assert named[0] in rows;
    }
  }

  /** The feature names of `rows`, in order, with repetitions; rows without
      a name contribute nothing. */
  function RowNames(rows: seq<SkillRow>, tag: string): seq<string> {
    if |rows| == 0 then []
    else
      var last := rows[|rows| - 1];
      RowNames(rows[..|rows| - 1], tag) + (if FeatureName(last, tag).Some? then [FeatureName(last, tag).value] else [])
  }

  /** The feature map's names are the distinct feature names in order of
      first appearance. */
  lemma {:induction false} FoldFeaturesKeys(rows: seq<SkillRow>, tag: string)
    ensures Keys(FoldFeatures(rows, tag)) == Dedup(RowNames(rows, tag))
  {
    if |rows| > 0 {
      var init := rows[..|rows| - 1];
      var last := rows[|rows| - 1];
      var names := RowNames(init, tag);
      var prev := FoldFeatures(init, tag);
      assert FoldFeatures(rows, tag) == FeatureStep(prev, last, tag);
      FoldFeaturesKeys(init, tag);
      FeatureStepKeys(prev, last, tag);
      if FeatureName(last, tag).Some? {
        var n := FeatureName(last, tag).value;
        DedupSnoc(names, n);
      } else {
        assert RowNames(rows, tag) == names + [] == names;
      }
    } else {
      assert FoldFeatures(rows, tag) == [];
    }
  }

  /** A feature step adds the row's name at the end when it is new. */
  lemma FeatureStepKeys(m: seq<(string, FeatureMeta)>, r: SkillRow, tag: string)
    ensures FeatureName(r, tag).None? ==> Keys(FeatureStep(m, r, tag)) == Keys(m)
    ensures FeatureName(r, tag).Some? ==>
      var n := FeatureName(r, tag).value;
      Keys(FeatureStep(m, r, tag)) == if n in Keys(m) then Keys(m) else Keys(m) + [n]
  {
  }

  /* ----- Grouping by price list ----- */

  predicate IsActive(r: SkillRow) {
    r.priceList.isActive
  }

  /** `rows.filter(r => r.price_list?.is_active)`. */
  function Active(rows: seq<SkillRow>): seq<SkillRow> {
    Filter(rows, IsActive)
  }

  function CourseIdOf(r: SkillRow): string {
    r.priceList.id
  }

  /** The price-list ids of `rows`, in order, with repetitions. */
  function CourseIds(rows: seq<SkillRow>): seq<string> {
    Project(rows, CourseIdOf)
  }

  /** The rows of course `cid`, in order. */
  function RowsOf(rows: seq<SkillRow>, cid: string): (r: seq<SkillRow>)
    ensures forall i :: 0 <= i < |r| ==> r[i] in rows && r[i].priceList.id == cid
  {
    if |rows| == 0 then []
    else
      var init := rows[..|rows| - 1];
      var last := rows[|rows| - 1];
      RowsOf(init, cid) + (if last.priceList.id == cid then [last] else [])
  }

  /** A fresh aggregate from the first row seen for a price list. */
  function Header(pl: PriceList, tag: string): Agg {
    Agg(TitleOf(pl, tag), DescriptionOf(pl, tag), pl.price, OriginalPriceFor(pl.order), CourseOrderOf(pl), [])
  }

  /** The loop body: create the aggregate on first sight of the id, then
      merge the row's feature into it. */
  function CourseStep(m: seq<(string, Agg)>, r: SkillRow, tag: string): seq<(string, Agg)> {
    var cid := r.priceList.id;
    var agg := Get(m, cid).GetOr(Header(r.priceList, tag));
    Put(m, cid, agg.(features := FeatureStep(agg.features, r, tag)))
  }

  /** One step touches only the entry of the row's id: it is created from
      the row's price list when missing, and takes the row's feature. */
  lemma CourseStepGet(m: seq<(string, Agg)>, r: SkillRow, tag: string, cid: string)
    ensures r.priceList.id != cid ==> Get(CourseStep(m, r, tag), cid) == Get(m, cid)
    ensures r.priceList.id == cid ==>
      var agg := Get(m, cid).GetOr(Header(r.priceList, tag));
      Get(CourseStep(m, r, tag), cid) == Some(agg.(features := FeatureStep(agg.features, r, tag)))
  {
    var id := r.priceList.id;
    var agg := Get(m, id).GetOr(Header(r.priceList, tag));
    PutGet(m, id, agg.(features := FeatureStep(agg.features, r, tag)), cid);
  }

  /** `byCourse` after the loop over `rows`. */
  function Aggregate(rows: seq<SkillRow>, tag: string): seq<(string, Agg)> {
    if |rows| == 0 then []
    else CourseStep(Aggregate(rows[..|rows| - 1], tag), rows[|rows| - 1], tag)
  }

  /** The map's keys are the distinct ids in order of first appearance. */
  lemma {:induction false} AggregateKeys(rows: seq<SkillRow>, tag: string)
    ensures Keys(Aggregate(rows, tag)) == Dedup(CourseIds(rows))
    ensures Distinct(Keys(Aggregate(rows, tag)))
  {
    if |rows| > 0 {
      var init := rows[..|rows| - 1];
      var last := rows[|rows| - 1];
      var prev := Aggregate(init, tag);
      assert Aggregate(rows, tag) == CourseStep(prev, last, tag);
      AggregateKeys(init, tag);
      CourseIdsSnoc(rows);
      var ids := CourseIds(rows);
      assert Dedup(ids) == (var d := Dedup(CourseIds(init)); if last.priceList.id in d then d else d + [last.priceList.id]);
    } else {
      assert Aggregate(rows, tag) == [];
    }
  }

  /** The ids of a non-empty list of rows end with the last row's id. */
  lemma CourseIdsSnoc(rows: seq<SkillRow>)
    requires |rows| > 0
    ensures var ids := CourseIds(rows);
      ids[..|ids| - 1] == CourseIds(rows[..|rows| - 1]) && ids[|ids| - 1] == rows[|rows| - 1].priceList.id
  {
    var init := rows[..|rows| - 1];
    assert rows == init + [rows[|rows| - 1]];
    ProjectSnoc(init, rows[|rows| - 1], CourseIdOf);
  }

  /** The aggregate a group of rows of one course adds up to: none for no
      rows; otherwise the header of the first row with the merged features of
      all of them. */
  function GroupAgg(group: seq<SkillRow>, tag: string): Option<Agg> {
    if group == [] then None
    else Some(Header(group[0].priceList, tag).(features := FoldFeatures(group, tag)))
  }

  /** The map's entry of an id is what the rows of that id add up to. */
  lemma {:induction false} AggregateGet(rows: seq<SkillRow>, tag: string, cid: string)
    ensures Get(Aggregate(rows, tag), cid) == GroupAgg(RowsOf(rows, cid), tag)
  {
    if |rows| > 0 {
      var init := rows[..|rows| - 1];
      var last := rows[|rows| - 1];
      var prev := Aggregate(init, tag);
      var before := RowsOf(init, cid);
      assert Aggregate(rows, tag) == CourseStep(prev, last, tag);
      AggregateGet(init, tag, cid);
      CourseStepGet(prev, last, tag, cid);
      if last.priceList.id == cid {
        assert RowsOf(rows, cid) == before + [last];
        GroupAggSnoc(before, last, tag);
      } else {
        assert RowsOf(rows, cid) == before + [];
        assert before + [] == before;
      }
    } else {
      assert Aggregate(rows, tag) == [] && RowsOf(rows, cid) == [];
    }
  }

  /** Adding a row to a group merges its feature into the group's
      aggregate, or starts one from the row. */
  lemma GroupAggSnoc(group: seq<SkillRow>, r: SkillRow, tag: string)
    ensures var agg := GroupAgg(group, tag).GetOr(Header(r.priceList, tag));
      GroupAgg(group + [r], tag) == Some(agg.(features := FeatureStep(agg.features, r, tag)))
  {
    var g := group + [r];
    assert g[..|g| - 1] == group && g[|g| - 1] == r;
    assert FoldFeatures(g, tag) == FeatureStep(FoldFeatures(group, tag), r, tag);
    if group == [] {
      assert g[0] == r;
      assert FoldFeatures(group, tag) == [];
    } else {
      assert g[0] == group[0];
    }
  }

  /** The aggregate of an id exists exactly when some row has the id; its
      title, description, price, original price and order come from the first
      such row, and its features are the merge of all of them. */
  lemma AggregateEntry(rows: seq<SkillRow>, tag: string, cid: string)
    ensures Get(Aggregate(rows, tag), cid).None? <==> RowsOf(rows, cid) == []
    ensures Get(Aggregate(rows, tag), cid).Some? ==>
      && Get(Aggregate(rows, tag), cid).value.(features := []) == Header(RowsOf(rows, cid)[0].priceList, tag)
      && Get(Aggregate(rows, tag), cid).value.features == FoldFeatures(RowsOf(rows, cid), tag)
  {
    AggregateGet(rows, tag, cid);
  }

  /* ----- Sorting and output ----- */

  function CourseOrderKey(e: (string, Agg)): int {
    e.1.courseOrder
  }

  function FeatureOrderKey(e: (string, FeatureMeta)): int {
    e.1.order
  }

  /** `Array.from(byCourse.entries()).sort(...)`: ordered by course order,
      a permutation of the map's entries, ties in insertion order. */
  function SortedCourseEntries(rows: seq<SkillRow>, tag: string): (r: seq<(string, Agg)>)
    ensures Sorted(r, CourseOrderKey)
    ensures multiset(r) == multiset(Aggregate(Active(rows), tag))
    ensures forall k :: KeyFilter(r, CourseOrderKey, k) == KeyFilter(Aggregate(Active(rows), tag), CourseOrderKey, k)
  {
    var entries := Aggregate(Active(rows), tag);
    SortStableAll(entries, CourseOrderKey);
    Sort(entries, CourseOrderKey)
  }

  /** `Array.from(featureMap.entries()).sort(...)`: ordered by feature order,
      a permutation of the map's entries, ties in insertion order. */
  function SortedFeatures(features: seq<(string, FeatureMeta)>): (r: seq<(string, FeatureMeta)>)
    ensures Sorted(r, FeatureOrderKey)
    ensures multiset(r) == multiset(features)
    ensures forall k :: KeyFilter(r, FeatureOrderKey, k) == KeyFilter(features, FeatureOrderKey, k)
  {
    SortStableAll(features, FeatureOrderKey);
    Sort(features, FeatureOrderKey)
  }

  function ToFeature(e: (string, FeatureMeta)): Feature {
    Feature(e.0, e.1.status)
  }

  /** The features of a card, in order. */
  function FeatureList(fs: seq<(string, FeatureMeta)>): seq<Feature> {
    Project(SortedFeatures(fs), ToFeature)
  }

  function ToCourse(e: (string, Agg)): Course {
    var agg := e.1;
    Course(e.0, agg.title, agg.price, agg.originalPrice, DefaultDuration, DefaultStudents,
           DefaultLessons, agg.description, FeatureList(agg.features))
  }

  /** `buildCoursesFromSkillApi(rows, language)`. */
  function Build(rows: seq<SkillRow>, tag: string): seq<Course> {
    Project(SortedCourseEntries(rows, tag), ToCourse)
  }

  /* ----- Properties of the whole aggregation ----- */

  /** Inactive rows do not matter: dropping them all, or any one of them,
      leaves the courses unchanged. */
  lemma BuildIgnoresInactiveRows(a: seq<SkillRow>, r: SkillRow, b: seq<SkillRow>, tag: string)
    ensures Build(Active(a + b), tag) == Build(a + b, tag)
    ensures !IsActive(r) ==> Build(a + [r] + b, tag) == Build(a + b, tag)
  {
    ActiveIdempotent(a + b);
    if !IsActive(r) {
      ActiveDropsInactive(a, r, b);
    }
  }

  lemma ActiveIdempotent(rows: seq<SkillRow>)
    ensures Active(Active(rows)) == Active(rows)
  {
    var act := Active(rows);
    assert forall i :: 0 <= i < |act| ==> IsActive(act[i]);
  }

  lemma ActiveDropsInactive(a: seq<SkillRow>, r: SkillRow, b: seq<SkillRow>)
    requires !IsActive(r)
    ensures Active(a + [r] + b) == Active(a + b)
  {
    calc {
      Active(a + [r] + b);
      { FilterConcat(a + [r], b, IsActive); }
      Active(a + [r]) + Active(b);
      { FilterConcat(a, [r], IsActive); }
      Active(a) + Active([r]) + Active(b);
      { assert Active([r]) == []; }
      Active(a) + Active(b);
      { FilterConcat(a, b, IsActive); }
      Active(a + b);
    }
  }

  /** Each sorted entry is the map's entry for its id. */
  lemma SortedEntryIsAggregate(rows: seq<SkillRow>, tag: string, i: int)
    requires 0 <= i < |SortedCourseEntries(rows, tag)|
    ensures var e := SortedCourseEntries(rows, tag)[i];
      Get(Aggregate(Active(rows), tag), e.0) == Some(e.1)
  {
    var entries := Aggregate(Active(rows), tag);
    var e := SortedCourseEntries(rows, tag)[i];
    assert e in multiset(entries);
    AggregateKeys(Active(rows), tag);
    GetOfEntry(entries, e);
  }

  function IdOf(c: Course): string {
    c.id
  }

  /** The ids of the cards are the keys of the sorted entries. */
  lemma BuildIds(rows: seq<SkillRow>, tag: string)
    ensures Project(Build(rows, tag), IdOf) == Keys(SortedCourseEntries(rows, tag))
  {
    var sorted := SortedCourseEntries(rows, tag);
    var ids := Project(Build(rows, tag), IdOf);
    assert |ids| == |Keys(sorted)|;
    forall i | 0 <= i < |ids|
      ensures ids[i] == Keys(sorted)[i]
    {
      assert Build(rows, tag)[i] == ToCourse(sorted[i]);
    }
  }

  /** Sorting keeps the keys of the course map: distinct, and the distinct
      active ids. */
  lemma SortedCourseKeys(rows: seq<SkillRow>, tag: string)
    ensures Distinct(Keys(SortedCourseEntries(rows, tag)))
    ensures forall y :: y in Keys(SortedCourseEntries(rows, tag)) <==> y in Dedup(CourseIds(Active(rows)))
    ensures |SortedCourseEntries(rows, tag)| == |Dedup(CourseIds(Active(rows)))|
  {
    var entries := Aggregate(Active(rows), tag);
    AggregateKeys(Active(rows), tag);
    SortKeepsDistinct(entries, CourseOrderKey, KeyOf);
    assert SortedCourseEntries(rows, tag) == Sort(entries, CourseOrderKey);
  }

  /** One course per distinct active price-list id, ids pairwise distinct,
      whether or not any row of the course names a feature. */
  lemma BuildOneCoursePerId(rows: seq<SkillRow>, tag: string)
    ensures |Build(rows, tag)| == |Dedup(CourseIds(Active(rows)))|
    ensures Distinct(Project(Build(rows, tag), IdOf))
    ensures forall cid :: cid in CourseIds(Active(rows)) <==> cid in Project(Build(rows, tag), IdOf)
  {
    var sorted := SortedCourseEntries(rows, tag);
    BuildIds(rows, tag);
    SortedCourseKeys(rows, tag);
    DedupSameElements(CourseIds(Active(rows)));
    assert |Build(rows, tag)| == |sorted|;
  }

  /** Every course card is built from the first active row with its id and
      the merge of all active rows with its id, and carries the default
      statistics. */
  lemma BuildCourseContents(rows: seq<SkillRow>, tag: string, i: int)
    requires 0 <= i < |Build(rows, tag)|
    ensures var c := Build(rows, tag)[i];
      var group := RowsOf(Active(rows), c.id);
      && |group| > 0
      && c.title == TitleOf(group[0].priceList, tag)
      && c.description == DescriptionOf(group[0].priceList, tag)
      && c.price == group[0].priceList.price
      && c.originalPrice == OriginalPriceFor(group[0].priceList.order)
      && c.duration == DefaultDuration && c.lessons == DefaultLessons && c.students == DefaultStudents
      && c.features == FeatureList(FoldFeatures(group, tag))
  {
    var e := SortedCourseEntries(rows, tag)[i];
    SortedEntryIsAggregate(rows, tag, i);
    AggregateEntry(Active(rows), tag, e.0);
  }

  /** Courses come out in non-decreasing order of their first active row's
      order (9999 when missing or not finite). */
  lemma BuildOrderedByCourseOrder(rows: seq<SkillRow>, tag: string, i: int, j: int)
    requires 0 <= i < j < |Build(rows, tag)|
    ensures |RowsOf(Active(rows), Build(rows, tag)[i].id)| > 0
    ensures |RowsOf(Active(rows), Build(rows, tag)[j].id)| > 0
    ensures CourseOrderOf(RowsOf(Active(rows), Build(rows, tag)[i].id)[0].priceList)
         <= CourseOrderOf(RowsOf(Active(rows), Build(rows, tag)[j].id)[0].priceList)
  {
    var sorted := SortedCourseEntries(rows, tag);
    SortedEntryIsAggregate(rows, tag, i);
    SortedEntryIsAggregate(rows, tag, j);
    AggregateEntry(Active(rows), tag, sorted[i].0);
    AggregateEntry(Active(rows), tag, sorted[j].0);
    assert CourseOrderKey(sorted[i]) <= CourseOrderKey(sorted[j]);
  }

  /** Courses with equal order keep the order in which their ids first
      appear among the active rows. */
  lemma CourseTiesInFirstAppearance(rows: seq<SkillRow>, tag: string, i: int, j: int)
    requires 0 <= i < j < |SortedCourseEntries(rows, tag)|
    requires CourseOrderKey(SortedCourseEntries(rows, tag)[i]) == CourseOrderKey(SortedCourseEntries(rows, tag)[j])
    ensures FirstIndex(CourseIds(Active(rows)), SortedCourseEntries(rows, tag)[i].0)
          < FirstIndex(CourseIds(Active(rows)), SortedCourseEntries(rows, tag)[j].0)
  {
    var entries := Aggregate(Active(rows), tag);
    var sorted := SortedCourseEntries(rows, tag);
    assert sorted == Sort(entries, CourseOrderKey);
    SortKeepsTieOrder(entries, CourseOrderKey, i, j);
    var p, q :| 0 <= p < q < |entries| && entries[p] == sorted[i] && entries[q] == sorted[j];
    AggregateKeys(Active(rows), tag);
    assert Keys(entries)[p] == sorted[i].0 && Keys(entries)[q] == sorted[j].0;
    DedupOrder(CourseIds(Active(rows)), p, q);
  }

  /** Cards whose first active rows carry the same order come out in the
      order in which their ids first appear among the active rows. */
  lemma BuildTiesInFirstAppearance(rows: seq<SkillRow>, tag: string, i: int, j: int)
    requires 0 <= i < j < |Build(rows, tag)|
    ensures |RowsOf(Active(rows), Build(rows, tag)[i].id)| > 0
    ensures |RowsOf(Active(rows), Build(rows, tag)[j].id)| > 0
    ensures var a := Build(rows, tag)[i].id;
      var b := Build(rows, tag)[j].id;
      CourseOrderOf(RowsOf(Active(rows), a)[0].priceList) == CourseOrderOf(RowsOf(Active(rows), b)[0].priceList)
      ==> FirstIndex(CourseIds(Active(rows)), a) < FirstIndex(CourseIds(Active(rows)), b)
  {
    var sorted := SortedCourseEntries(rows, tag);
    SortedEntryIsAggregate(rows, tag, i);
    SortedEntryIsAggregate(rows, tag, j);
    AggregateEntry(Active(rows), tag, sorted[i].0);
    AggregateEntry(Active(rows), tag, sorted[j].0);
    assert Build(rows, tag)[i].id == sorted[i].0 && Build(rows, tag)[j].id == sorted[j].0;
    if CourseOrderKey(sorted[i]) == CourseOrderKey(sorted[j]) {
      CourseTiesInFirstAppearance(rows, tag, i, j);
    }
  }

  function NameOf(f: Feature): string {
    f.name
  }

  /** Sorting and converting a feature map keeps its names, one feature per
      name, and each feature carries its entry's status. */
  lemma {:induction false} FeatureListNames(fs: seq<(string, FeatureMeta)>)
    requires Distinct(Keys(fs))
    ensures Distinct(Project(FeatureList(fs), NameOf))
    ensures forall n :: n in Project(FeatureList(fs), NameOf) <==> n in Keys(fs)
  {
    var sorted := SortedFeatures(fs);
    SortKeepsDistinct(fs, FeatureOrderKey, KeyOf);
    assert sorted == Sort(fs, FeatureOrderKey);
    var names := Project(FeatureList(fs), NameOf);
    assert |names| == |Keys(sorted)|;
    forall j | 0 <= j < |names|
      ensures names[j] == Keys(sorted)[j]
    {
      assert FeatureList(fs)[j] == ToFeature(sorted[j]);
    }
    assert names == Keys(sorted);
  }

  lemma FeatureListEntry(fs: seq<(string, FeatureMeta)>, j: int)
    requires Distinct(Keys(fs))
    requires 0 <= j < |FeatureList(fs)|
    ensures Get(fs, FeatureList(fs)[j].name).Some?
    ensures Get(fs, FeatureList(fs)[j].name).value.status == FeatureList(fs)[j].status
  {
    var e := SortedFeatures(fs)[j];
    assert e in multiset(fs);
    GetOfEntry(fs, e);
  }

  /** The features of one course's rows have unique names. */
  lemma CourseFeatureNamesDistinct(group: seq<SkillRow>, tag: string)
    ensures Distinct(Project(FeatureList(FoldFeatures(group, tag)), NameOf))
  {
    FeatureMerge(group, tag, "");
    FeatureListNames(FoldFeatures(group, tag));
  }

  /** A course has a feature for every name some of its rows carries, and
      for no other name. */
  lemma CourseFeatureNames(group: seq<SkillRow>, tag: string, n: string)
    ensures n in Project(FeatureList(FoldFeatures(group, tag)), NameOf) <==>
      exists k :: 0 <= k < |group| && FeatureName(group[k], tag) == Some(n)
  {
    var merged := FoldFeatures(group, tag);
    FeatureMerge(group, tag, n);
    FeatureListNames(merged);
  }

  /** Each feature of a course comes from at least one row and its status
      is the "or" over the rows carrying its name. */
  lemma CourseFeatureStatus(group: seq<SkillRow>, tag: string, j: int)
    requires 0 <= j < |FeatureList(FoldFeatures(group, tag))|
    ensures var f := FeatureList(FoldFeatures(group, tag))[j];
      var named := NamedRows(group, f.name, tag);
      |named| > 0 && (f.status <==> exists k :: 0 <= k < |named| && named[k].status)
  {
    var merged := FoldFeatures(group, tag);
    var f := FeatureList(merged)[j];
    FeatureMerge(group, tag, f.name);
    FeatureListEntry(merged, j);
    FoldFeaturesGet(group, tag, f.name);
    FoldMetaStatus(NamedRows(group, f.name, tag));
  }

  /** Features leave a card in non-decreasing order of their merged order. */
  lemma FeatureListOrdered(fs: seq<(string, FeatureMeta)>, j: int, k: int)
    requires Distinct(Keys(fs))
    requires 0 <= j < k < |FeatureList(fs)|
    ensures Get(fs, FeatureList(fs)[j].name).Some? && Get(fs, FeatureList(fs)[k].name).Some?
    ensures Get(fs, FeatureList(fs)[j].name).value.order <= Get(fs, FeatureList(fs)[k].name).value.order
  {
    var sorted := SortedFeatures(fs);
    assert sorted[j] in multiset(fs) && sorted[k] in multiset(fs);
    GetOfEntry(fs, sorted[j]);
    GetOfEntry(fs, sorted[k]);
    assert FeatureOrderKey(sorted[j]) <= FeatureOrderKey(sorted[k]);
  }

  /** Features of one course with equal merged order keep the order in
      which their names first appear among the course's rows. */
  lemma FeatureTiesInFirstAppearance(group: seq<SkillRow>, tag: string, j: int, k: int)
    requires 0 <= j < k < |FeatureList(FoldFeatures(group, tag))|
    ensures var m := FoldFeatures(group, tag);
      var fl := FeatureList(m);
      Get(m, fl[j].name).Some? && Get(m, fl[k].name).Some?
    ensures var m := FoldFeatures(group, tag);
      var fl := FeatureList(m);
      Get(m, fl[j].name).value.order == Get(m, fl[k].name).value.order
      ==> FirstIndex(RowNames(group, tag), fl[j].name) < FirstIndex(RowNames(group, tag), fl[k].name)
  {
    var m := FoldFeatures(group, tag);
    var sorted := SortedFeatures(m);
    FoldFeaturesGet(group, tag, "");
    assert sorted[j] in multiset(m) && sorted[k] in multiset(m);
    GetOfEntry(m, sorted[j]);
    GetOfEntry(m, sorted[k]);
    assert FeatureList(m)[j].name == sorted[j].0 && FeatureList(m)[k].name == sorted[k].0;
    if FeatureOrderKey(sorted[j]) == FeatureOrderKey(sorted[k]) {
      assert sorted == Sort(m, FeatureOrderKey);
      SortKeepsTieOrder(m, FeatureOrderKey, j, k);
      var p, q :| 0 <= p < q < |m| && m[p] == sorted[j] && m[q] == sorted[k];
      FoldFeaturesKeys(group, tag);
      assert Keys(m)[p] == sorted[j].0 && Keys(m)[q] == sorted[k].0;
      DedupOrder(RowNames(group, tag), p, q);
    }
  }

  /** Within a card, a feature listed before another has a merged order no
      larger than the other's. */
  lemma BuildFeaturesOrdered(rows: seq<SkillRow>, tag: string, i: int, j: int, k: int)
    requires 0 <= i < |Build(rows, tag)|
    requires 0 <= j < k < |Build(rows, tag)[i].features|
    ensures var c := Build(rows, tag)[i];
      var group := RowsOf(Active(rows), c.id);
      && FoldMeta(NamedRows(group, c.features[j].name, tag)).Some?
      && FoldMeta(NamedRows(group, c.features[k].name, tag)).Some?
      && FoldMeta(NamedRows(group, c.features[j].name, tag)).value.order
         <= FoldMeta(NamedRows(group, c.features[k].name, tag)).value.order
  {
    BuildCourseContents(rows, tag, i);
    var c := Build(rows, tag)[i];
    var group := RowsOf(Active(rows), c.id);
    var merged := FoldFeatures(group, tag);
    FoldFeaturesGet(group, tag, c.features[j].name);
    FoldFeaturesGet(group, tag, c.features[k].name);
    FeatureListOrdered(merged, j, k);
  }
}
