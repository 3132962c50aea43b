/**
 * The growth-record and community models of main/models.py: the uniqueness constraints
 * the database enforces on insert, the article review states, the defaults of a new
 * comment and its declared content rule, the display labels (`__str__`) of comments,
 * records and photos, and the category tree's `children`.
 */
module MainModels {
  import opened Wrappers
  import Dates
  import Decimal

  type RowId = nat
  type UserId = nat
  type BabyId = nat
  type ArticleId = nat
  type CategoryId = nat

  function Min(a: int, b: int): int {
    if a <= b then a else b
  }

  // ---------------------------------------------------------------------------------------
  // Uniqueness constraints

  /** A `unique_together` (or `unique=True`) constraint holds: no two rows of the table share a key. */
  predicate Unique<R, K(==)>(rows: map<RowId, R>, key: R -> K) {
    forall i, j :: i in rows && j in rows && key(rows[i]) == key(rows[j]) ==> i == j
  }

  /** The rows whose key is `k`. */
  function RowsWithKey<R, K(==)>(rows: map<RowId, R>, key: R -> K, k: K): set<RowId> {
    set i | i in rows && key(rows[i]) == k
  }

  /** The constraint holds exactly when every key is carried by at most one row. */
  lemma {:induction false} UniqueIffAtMostOne<R, K>(rows: map<RowId, R>, key: R -> K)
    ensures Unique(rows, key) <==> forall k :: |RowsWithKey(rows, key, k)| <= 1
  {
    if Unique(rows, key) {
      forall k
        ensures |RowsWithKey(rows, key, k)| <= 1
      {
        var s := RowsWithKey(rows, key, k);
        if s != {} {
          var i :| i in s;
          assert s == {i};
        }
      }
    } else {
      var i, j :| i in rows && j in rows && key(rows[i]) == key(rows[j]) && i != j;
      TwoMembers(RowsWithKey(rows, key, key(rows[i])), i, j);
    }
  }

  lemma {:induction false} TwoMembers(s: set<RowId>, i: RowId, j: RowId)
    requires i in s && j in s && i != j
    ensures |s| >= 2
  {
    var t := s - {i};
    assert j in t;
    assert s == t + {i};
  }

  /**
   * An INSERT of `row` under the fresh primary key `id`; None is the IntegrityError the
   * database raises when the key is taken or another row already carries the row's key.
   */
  function Insert<R, K(==)>(rows: map<RowId, R>, key: R -> K, id: RowId, row: R): (r: Option<map<RowId, R>>)
    ensures r.Some? <==> id !in rows && forall i :: i in rows ==> key(rows[i]) != key(row)
    ensures r.Some? ==> r.value == rows[id := row]
    ensures Unique(rows, key) && r.Some? ==> Unique(r.value, key)
  {
    if id in rows || exists i :: i in rows && key(rows[i]) == key(row) then None
    else Some(rows[id := row])
  }

  datatype Like = Like(user: UserId, article: ArticleId)
  datatype Collect = Collect(user: UserId, article: ArticleId)
  datatype BabyParent = BabyParent(baby: BabyId, user: UserId, role: string, isPrimary: bool)
  datatype Measurement = Measurement(baby: BabyId, measureDate: Dates.Date)
  datatype Vaccine = Vaccine(name: string, code: string, dose: nat)

  function LikeKey(l: Like): (UserId, ArticleId) { (l.user, l.article) }
  function CollectKey(c: Collect): (UserId, ArticleId) { (c.user, c.article) }
  function BabyParentKey(p: BabyParent): (BabyId, UserId) { (p.baby, p.user) }
  function MeasurementKey(m: Measurement): (BabyId, Dates.Date) { (m.baby, m.measureDate) }
  function VaccineDoseKey(v: Vaccine): (string, nat) { (v.name, v.dose) }
  function VaccineCode(v: Vaccine): string { v.code }

  /** A user likes an article at most once. */
  lemma {:induction false} OneLikePerUserAndArticle(likes: map<RowId, Like>, user: UserId, article: ArticleId)
    requires Unique(likes, LikeKey)
    ensures |set i | i in likes && likes[i].user == user && likes[i].article == article| <= 1
  {
    UniqueIffAtMostOne(likes, LikeKey);
    assert (set i | i in likes && likes[i].user == user && likes[i].article == article) ==
      RowsWithKey(likes, LikeKey, (user, article));
  }

  /** A user collects an article at most once. */
  lemma {:induction false} OneCollectPerUserAndArticle(collects: map<RowId, Collect>, user: UserId, article: ArticleId)
    requires Unique(collects, CollectKey)
    ensures |set i | i in collects && collects[i].user == user && collects[i].article == article| <= 1
  {
    UniqueIffAtMostOne(collects, CollectKey);
    assert (set i | i in collects && collects[i].user == user && collects[i].article == article) ==
      RowsWithKey(collects, CollectKey, (user, article));
  }

  /** A user is linked to a baby at most once, whatever the role. */
  lemma {:induction false} OneLinkPerBabyAndUser(links: map<RowId, BabyParent>, baby: BabyId, user: UserId)
    requires Unique(links, BabyParentKey)
    ensures |set i | i in links && links[i].baby == baby && links[i].user == user| <= 1
  {
    UniqueIffAtMostOne(links, BabyParentKey);
    assert (set i | i in links && links[i].baby == baby && links[i].user == user) ==
      RowsWithKey(links, BabyParentKey, (baby, user));
  }

  /** A baby has at most one measurement per day. */
  lemma {:induction false} OneMeasurementPerDay(measurements: map<RowId, Measurement>, baby: BabyId, day: Dates.Date)
    requires Unique(measurements, MeasurementKey)
    ensures |set i | i in measurements && measurements[i].baby == baby && measurements[i].measureDate == day| <= 1
  {
    UniqueIffAtMostOne(measurements, MeasurementKey);
    assert (set i | i in measurements && measurements[i].baby == baby && measurements[i].measureDate == day) ==
      RowsWithKey(measurements, MeasurementKey, (baby, day));
  }

  /** The vaccine dictionary's two constraints: one entry per (name, dose), one per code. */
  predicate ValidVaccines(vaccines: map<RowId, Vaccine>) {
    Unique(vaccines, VaccineDoseKey) && Unique(vaccines, VaccineCode)
  }

  /** An INSERT into the vaccine dictionary, refused when the primary key, the (name, dose) pair or the code is taken. */
  function InsertVaccine(vaccines: map<RowId, Vaccine>, id: RowId, v: Vaccine): (r: Option<map<RowId, Vaccine>>)
    ensures r.Some? <==>
      id !in vaccines &&
      (forall i :: i in vaccines ==> (vaccines[i].name, vaccines[i].dose) != (v.name, v.dose)) &&
      (forall i :: i in vaccines ==> vaccines[i].code != v.code)
    ensures r.Some? ==> r.value == vaccines[id := v]
    ensures ValidVaccines(vaccines) && r.Some? ==> ValidVaccines(r.value)
  {
    match Insert(vaccines, VaccineDoseKey, id, v)
    case None => None
    case Some(_) => Insert(vaccines, VaccineCode, id, v)
  }

  /** Each dose of a vaccine has one entry. */
  lemma {:induction false} OneEntryPerVaccineDose(vaccines: map<RowId, Vaccine>, name: string, dose: nat)
    requires ValidVaccines(vaccines)
    ensures |set i | i in vaccines && vaccines[i].name == name && vaccines[i].dose == dose| <= 1
  {
    UniqueIffAtMostOne(vaccines, VaccineDoseKey);
    assert (set i | i in vaccines && vaccines[i].name == name && vaccines[i].dose == dose) ==
      RowsWithKey(vaccines, VaccineDoseKey, (name, dose));
  }

  // ---------------------------------------------------------------------------------------
  // Articles

  datatype ArticleState =
    | Rejected  // "拒绝"
    | Pending   // "未审核"
    | Approved  // "通过"

  /** The integer each state is stored as. */
  function StateCode(s: ArticleState): int {
    match s
    case Rejected => -1
    case Pending => 0
    case Approved => 1
  }

  /** The state a stored integer names; None for an integer outside the declared choices. */
  function StateFromCode(code: int): (r: Option<ArticleState>)
    ensures r.Some? <==> -1 <= code <= 1
    ensures r.Some? ==> StateCode(r.value) == code
  {
    if code == -1 then Some(Rejected)
    else if code == 0 then Some(Pending)
    else if code == 1 then Some(Approved)
    else None
  }

  lemma {:induction false} StateCodeRoundTrip(s: ArticleState)
    ensures StateFromCode(StateCode(s)) == Some(s)
  {
  }

  const DefaultState := Pending

  datatype Article = Article(title: string, content: string, author: Option<UserId>, state: int)

  /** An article as created without a state: it awaits review. */
  function NewArticle(title: string, content: string, author: Option<UserId>): (a: Article)
    ensures a.title == title && a.content == content && a.author == author
    ensures StateFromCode(a.state) == Some(Pending) && a.state == 0
  {
    Article(title, content, author, StateCode(DefaultState))
  }

  // ---------------------------------------------------------------------------------------
  // Comments

  datatype Comment = Comment(id: nat, user: UserId, article: ArticleId, content: string, likeCount: nat, isDeleted: bool)

  /** A comment as created: no likes yet, and not deleted. */
  function NewComment(id: nat, user: UserId, article: ArticleId, content: string): (c: Comment)
    ensures c.id == id && c.user == user && c.article == article && c.content == content
    ensures c.likeCount == 0 && !c.isDeleted
  {
    Comment(id, user, article, content, 0, false)
  }

  const CommentMaxLength := 500

  datatype ContentError = Required | TooLong

  /** The declared rule on a comment's content (`blank=False`, `max_length=500`), applied by its form field. */
  function CheckCommentContent(content: string): (r: Option<ContentError>)
    ensures r.None? <==> 1 <= |content| <= CommentMaxLength
    ensures r == Some(Required) <==> content == []
  {
    if content == [] then Some(Required)
    else if |content| > CommentMaxLength then Some(TooLong)
    else None
  }

  const SummaryLength := 20
  const Ellipsis := "..."

  /** The excerpt of a comment shown in its label: the content, cut to 20 characters and marked when longer. */
  function CommentSummary(content: string): (r: string)
    ensures |content| <= SummaryLength ==> r == content
    ensures |content| > SummaryLength ==>
      |r| == SummaryLength + |Ellipsis| && r[..SummaryLength] == content[..SummaryLength] && r[SummaryLength..] == Ellipsis
  {
    if |content| > SummaryLength then content[..SummaryLength] + Ellipsis else content
  }

  /** The summary is never longer than 23 characters and starts with as much of the content as it can hold. */
  lemma {:induction false} SummaryBounds(content: string)
    ensures |CommentSummary(content)| <= SummaryLength + |Ellipsis|
    ensures var n := Min(SummaryLength, |content|); CommentSummary(content)[..n] == content[..n]
  {
  }

  /** Summarising a summary changes nothing. */
  lemma {:induction false} SummaryIdempotent(content: string)
    ensures CommentSummary(CommentSummary(content)) == CommentSummary(content)
  {
    var s := CommentSummary(content);
    if |content| > SummaryLength {
      assert s[..SummaryLength] + Ellipsis == s;
    }
  }

  /** `ArticleComments.__str__`: the comment's id in brackets, its author, the article's title and the summary. */
  function CommentLabel(c: Comment, username: string, articleTitle: string): (r: string)
    ensures var head := "[" + Decimal.Text(c.id) + "] ";
      |head| <= |r| && r[..|head|] == head
    ensures var tail := CommentSummary(c.content);
      |tail| <= |r| && r[|r| - |tail|..] == tail
  {
    "[" + Decimal.Text(c.id) + "] " + username + " 评《" + articleTitle + "》：" + CommentSummary(c.content)
  }

  /** The label locates the comment: comments with different ids have different labels, whatever else they hold. */
  lemma {:induction false} CommentLabelsDistinguish(c: Comment, d: Comment, u: string, u': string, t: string, t': string)
    requires CommentLabel(c, u, t) == CommentLabel(d, u', t')
    ensures c.id == d.id
  {
    var shown := CommentLabel(c, u, t);
    var x, y := Decimal.Text(c.id), Decimal.Text(d.id);
    Decimal.TextIsDigits(c.id);
    Decimal.TextIsDigits(d.id);
    BracketedDigits(shown, x, y);
    Decimal.TextInjective(c.id, d.id);
  }

  /** Two bracketed digit strings that both open the same text are equal: the digits run up to the first ']'. */
  lemma {:induction false} BracketedDigits(shown: string, x: string, y: string)
    requires Decimal.AllDigits(x) && Decimal.AllDigits(y)
    requires |x| + 3 <= |shown| && shown[..|x| + 3] == "[" + x + "] "
    requires |y| + 3 <= |shown| && shown[..|y| + 3] == "[" + y + "] "
    ensures x == y
  {
    assert forall k :: 0 <= k < |x| ==> shown[1 + k] == x[k] by {
      forall k | 0 <= k < |x| ensures shown[1 + k] == x[k] {
        assert shown[1 + k] == shown[..|x| + 3][1 + k];
      }
    }
    assert forall k :: 0 <= k < |y| ==> shown[1 + k] == y[k] by {
      forall k | 0 <= k < |y| ensures shown[1 + k] == y[k] {
        assert shown[1 + k] == shown[..|y| + 3][1 + k];
      }
    }
    assert shown[1 + |x|] == ']' by { assert shown[1 + |x|] == shown[..|x| + 3][1 + |x|]; }
    assert shown[1 + |y|] == ']' by { assert shown[1 + |y|] == shown[..|y| + 3][1 + |y|]; }
    if |x| != |y| {
      assert false;
    }
    assert x == y;
  }

  // ---------------------------------------------------------------------------------------
  // Records and photos

  datatype RecordCategory = Daily | Health | Development | Feeding | Sleep | OtherCategory

  function CategoryCode(c: RecordCategory): string {
    match c
    case Daily => "daily"
    case Health => "health"
    case Development => "development"
    case Feeding => "feeding"
    case Sleep => "sleep"
    case OtherCategory => "other"
  }

  function CategoryLabel(c: RecordCategory): string {
    match c
    case Daily => "日常记录"
    case Health => "健康记录"
    case Development => "发育记录"
    case Feeding => "喂养记录"
    case Sleep => "睡眠记录"
    case OtherCategory => "其他"
  }

  function CategoryFromCode(code: string): (r: Option<RecordCategory>)
    ensures r.Some? ==> CategoryCode(r.value) == code
  {
    if code == "daily" then Some(Daily)
    else if code == "health" then Some(Health)
    else if code == "development" then Some(Development)
    else if code == "feeding" then Some(Feeding)
    else if code == "sleep" then Some(Sleep)
    else if code == "other" then Some(OtherCategory)
    else None
  }

  lemma {:induction false} CategoryCodeRoundTrip(c: RecordCategory)
    ensures CategoryFromCode(CategoryCode(c)) == Some(c)
  {
  }

  /** `get_category_display()`: the display name of a declared choice, the stored value itself otherwise. */
  function CategoryDisplay(code: string): (r: string)
    ensures CategoryFromCode(code).None? ==> r == code
  {
    match CategoryFromCode(code)
    case Some(c) => CategoryLabel(c)
    case None => code
  }

  /** What a record's text ends with: its title, or when the title is empty the first 20 characters of its content. */
  function RecordHeadline(title: string, content: string): (h: string)
    ensures title != [] ==> h == title
    ensures title == [] ==> |h| <= SummaryLength && |h| <= |content| && h == content[..|h|] && (|content| <= SummaryLength ==> h == content)
  {
    if title != [] then title else content[..Min(SummaryLength, |content|)]
  }

  /**
   * `Record.__str__`; `babyLabel` is the baby's own text.  After the baby, "的", the
   * category's display name and ": ", it shows the title, or without one the start of the content.
   */
  function RecordLabel(babyLabel: string, category: string, title: string, content: string): (r: string)
    ensures var n := |babyLabel + "的" + CategoryDisplay(category) + ": "|;
      n <= |r| && r[..n] == babyLabel + "的" + CategoryDisplay(category) + ": " &&
      (title != [] ==> r[n..] == title) &&
      (title == [] ==> r[n..] == content[..Min(SummaryLength, |content|)])
  {
    babyLabel + "的" + CategoryDisplay(category) + ": " + RecordHeadline(title, content)
  }

  datatype MediaType = PhotoMedia | VideoMedia

  function MediaTypeCode(m: MediaType): string {
    match m
    case PhotoMedia => "photo"
    case VideoMedia => "video"
  }

  function MediaTypeLabel(m: MediaType): string {
    match m
    case PhotoMedia => "照片"
    case VideoMedia => "视频"
  }

  function MediaTypeFromCode(code: string): (r: Option<MediaType>)
    ensures r.Some? ==> MediaTypeCode(r.value) == code
  {
    if code == "photo" then Some(PhotoMedia)
    else if code == "video" then Some(VideoMedia)
    else None
  }

  lemma {:induction false} MediaTypeCodeRoundTrip(m: MediaType)
    ensures MediaTypeFromCode(MediaTypeCode(m)) == Some(m)
  {
  }

  /** `get_media_type_display()` */
  function MediaTypeDisplay(code: string): (r: string)
    ensures MediaTypeFromCode(code).None? ==> r == code
  {
    match MediaTypeFromCode(code)
    case Some(m) => MediaTypeLabel(m)
    case None => code
  }

  const Untitled := "未命名"

  /** What a photo's text shows after its type: the description, or "未命名" when there is none. */
  function PhotoName(description: string): (n: string)
    ensures n != []
    ensures description != [] ==> n == description
    ensures description == [] ==> n == Untitled
  {
    if description != [] then description else Untitled
  }

  /** `Photo.__str__`: never left without a name; after the type it shows the description, or "未命名". */
  function PhotoLabel(mediaType: string, description: string): (r: string)
    ensures var n := |MediaTypeDisplay(mediaType)| + 2;
      n < |r| && r[..n] == MediaTypeDisplay(mediaType) + ": " &&
      r[n..] == (if description != [] then description else Untitled)
  {
    MediaTypeDisplay(mediaType) + ": " + PhotoName(description)
  }

  // ---------------------------------------------------------------------------------------
  // Categories

  datatype Category = Category(classification: string, parent: Option<CategoryId>)

  /** `classification` is declared `unique=True`. */
  function ClassificationKey(c: Category): string { c.classification }

  /** Under the unique constraint, a name names at most one category. */
  lemma {:induction false} OneCategoryPerName(cats: map<CategoryId, Category>, name: string)
    requires Unique(cats, ClassificationKey)
    ensures |set k | k in cats && cats[k].classification == name| <= 1
  {
    UniqueIffAtMostOne(cats, ClassificationKey);
    assert (set k | k in cats && cats[k].classification == name) == RowsWithKey(cats, ClassificationKey, name);
  }

  /** `Category.children()`: the categories whose parent is `c`. */
  function Children(cats: map<CategoryId, Category>, c: CategoryId): (r: set<CategoryId>)
    ensures forall k :: k in r <==> k in cats && cats[k].parent == Some(c)
  {
    set k | k in cats && cats[k].parent == Some(c)
  }

  /** A category is a child of its own parent and of no other category. */
  lemma {:induction false} ChildOfOneParent(cats: map<CategoryId, Category>, k: CategoryId, c: CategoryId)
    requires k in cats
    ensures k in Children(cats, c) <==> cats[k].parent == Some(c)
    ensures forall d :: d != c && k in Children(cats, c) ==> k !in Children(cats, d)
  {
  }

  /** Children of different categories never overlap, and a top-level category is nobody's child. */
  lemma {:induction false} ChildrenDisjoint(cats: map<CategoryId, Category>, c: CategoryId, d: CategoryId)
    requires c != d
    ensures Children(cats, c) * Children(cats, d) == {}
    ensures forall k :: k in cats && cats[k].parent.None? ==> k !in Children(cats, c)
  {
  }
}
