/** The social feed: a list of activity posts whose like state the viewer
    toggles, and the two formatters the post cards use. */
module SocialFeed {
  import opened Wrappers
  import opened Text
  import opened Arithmetic

  datatype User = User(name: string, avatar: string)

  /** The activity a post reports; `duration` is in seconds. */
  datatype PostActivity = PostActivity(
    name: string,
    category: string,
    duration: nat,
    description: Option<string>)

  /** One post; `timestamp` is in milliseconds. */
  datatype Post = Post(
    id: string,
    user: User,
    activity: PostActivity,
    timestamp: int,
    likes: int,
    comments: nat,
    isLiked: bool)

  /** The three posts the feed begins with, dated 2, 4 and 6 hours before `now`. */
  function Fixture(now: int): seq<Post> {
    [ Post("1", User("Alex Chen", "\U{1F468}\U{200D}\U{1F4BB}"),
        PostActivity("CS Study Session", "study-cs", 7200,
          Some("Crushed through algorithms and data structures today! \U{1F4AA}")),
        now - 2 * 60 * 60 * 1000, 12, 3, false),
      Post("2", User("Sarah Kim", "\U{1F469}\U{200D}\U{1F393}"),
        PostActivity("Gym Workout", "gym", 3600,
          Some("Morning workout complete! Feeling energized for the day \U{1F3CB}\U{FE0F}\U{200D}\U{2640}\U{FE0F}")),
        now - 4 * 60 * 60 * 1000, 8, 1, true),
      Post("3", User("Mike Johnson", "\U{1F468}\U{200D}\U{1F393}"),
        PostActivity("Reading Time", "reading", 1800,
          Some("Finished another chapter of \"Atomic Habits\" \U{1F4DA}")),
        now - 6 * 60 * 60 * 1000, 5, 2, false) ]
  }

  // ---------------------------------------------------------------------
  // toggleLike

  /** The likes a post has from everyone but the viewer. */
  function OthersLikes(p: Post): int {
    p.likes - if p.isLiked then 1 else 0
  }

  /** The viewer's like on one post flipped: the count moves with it by one,
      so the other viewers' likes stay as they were, and nothing else changes. */
  function Toggled(p: Post): (q: Post)
    ensures q.isLiked == !p.isLiked
    ensures OthersLikes(q) == OthersLikes(p)
    ensures q.(isLiked := p.isLiked, likes := p.likes) == p
  {
    p.(isLiked := !p.isLiked, likes := if p.isLiked then p.likes - 1 else p.likes + 1)
  }

  /** `toggleLike(id)` on the post list: every post with the id is toggled,
      every other post is kept as it is, in the same order. */
  function WithLikeToggled(posts: seq<Post>, id: string): (r: seq<Post>)
    ensures |r| == |posts|
    ensures forall i :: 0 <= i < |r| ==>
      r[i].id == posts[i].id && OthersLikes(r[i]) == OthersLikes(posts[i])
    ensures forall i :: 0 <= i < |r| ==> (r[i].isLiked != posts[i].isLiked <==> posts[i].id == id)
    ensures forall i :: 0 <= i < |r| && posts[i].id == id ==>
      r[i].likes == if posts[i].isLiked then posts[i].likes - 1 else posts[i].likes + 1
    ensures forall i :: 0 <= i < |r| && posts[i].id == id ==> r[i] == Toggled(posts[i])
    ensures forall i :: 0 <= i < |r| && posts[i].id != id ==> r[i] == posts[i]
    ensures (forall i :: 0 <= i < |posts| ==> posts[i].id != id) ==> r == posts
  {
    seq(|posts|, i requires 0 <= i < |posts| =>
      if posts[i].id == id then Toggled(posts[i]) else posts[i])
  }

  /** Toggling the same post twice gives back the original list. */
  lemma ToggleTwice(posts: seq<Post>, id: string)
    ensures WithLikeToggled(WithLikeToggled(posts, id), id) == posts
  {
    var once := WithLikeToggled(posts, id);
    var twice := WithLikeToggled(once, id);
    forall i | 0 <= i < |posts|
      ensures twice[i] == posts[i]
    {
      if posts[i].id == id {
        assert twice[i] == Toggled(Toggled(posts[i]));
      }
    }
  }

  /** The feed's state cell and its like handler. */
  class Feed {
    var posts: seq<Post>

    constructor (now: int)
      ensures posts == Fixture(now)
    {
      posts := Fixture(now);
    }

    /** `toggleLike(id)`. */
    method ToggleLike(id: string)
      modifies this
      ensures posts == WithLikeToggled(old(posts), id)
    {
      posts := WithLikeToggled(posts, id);
    }
  }

  // ---------------------------------------------------------------------
  // formatTime: "{h}h {m}m" or "{m}m"

  /** A number followed by a one-letter unit, such as `12h`, with the number
      written as `toString()` writes it (no superfluous leading zero). */
  predicate HasUnit(w: string, unit: char) {
    |w| >= 2 && w[|w| - 1] == unit && Canonical(w[..|w| - 1])
  }

  function Amount(w: string, unit: char): nat
    requires HasUnit(w, unit)
  {
    ValueOf(w[..|w| - 1])
  }

  /** A numeral followed by its unit reads back as the number. */
  lemma UnitRoundTrip(n: nat, unit: char)
    requires !IsDigit(unit)
    ensures HasUnit(Decimal(n) + [unit], unit) && Amount(Decimal(n) + [unit], unit) == n
    ensures ' ' !in Decimal(n) + [unit] <== unit != ' '
  {
    var w := Decimal(n) + [unit];
    assert w[..|w| - 1] == Decimal(n);
  }

  /** A word with a unit is the numeral of its amount followed by the unit. */
  lemma HasUnitIsNumeral(w: string, unit: char)
    requires HasUnit(w, unit)
    ensures w == Decimal(Amount(w, unit)) + [unit]
  {
    CanonicalIsDecimal(w[..|w| - 1]);
    assert w == w[..|w| - 1] + [w[|w| - 1]];
  }

  /** Reads a feed duration back as whole minutes: `{m}m`, or `{h}h {m}m`
      with at least one hour; minutes below 60. */
  function ParseDuration(text: string): Option<nat> {
    var w := Split(text, ' ');
    if |w| == 1 && HasUnit(w[0], 'm') && Amount(w[0], 'm') < 60 then
      Some(Amount(w[0], 'm'))
    else if |w| == 2 && HasUnit(w[0], 'h') && HasUnit(w[1], 'm')
      && Amount(w[0], 'h') > 0 && Amount(w[1], 'm') < 60 then
      Some(Amount(w[0], 'h') * 60 + Amount(w[1], 'm'))
    else
      None
  }

  lemma ParseMinutes(minutes: nat)
    requires minutes < 60
    ensures ParseDuration(Decimal(minutes) + "m") == Some(minutes)
  {
    var m := Decimal(minutes) + "m";
    UnitRoundTrip(minutes, 'm');
    SplitWhole(m, ' ');
  }

  lemma ParseTwoWords(h: string, m: string)
    requires HasUnit(h, 'h') && HasUnit(m, 'm') && ' ' !in h && ' ' !in m
    requires Amount(h, 'h') > 0 && Amount(m, 'm') < 60
    ensures ParseDuration(h + [' '] + m) == Some(Amount(h, 'h') * 60 + Amount(m, 'm'))
  {
    SplitWhole(m, ' ');
    SplitAt(h, ' ', m);
  }

  lemma ParseHoursMinutes(hours: nat, minutes: nat)
    requires hours > 0 && minutes < 60
    ensures ParseDuration(Decimal(hours) + "h " + Decimal(minutes) + "m") == Some(hours * 60 + minutes)
  {
    var h, m := Decimal(hours) + "h", Decimal(minutes) + "m";
    UnitRoundTrip(hours, 'h');
    UnitRoundTrip(minutes, 'm');
    ParseTwoWords(h, m);
    assert Decimal(hours) + "h " + Decimal(minutes) + "m" == h + [' '] + m;
  }

  /** Hours and minutes as the feed writes them: `{h}h {m}m`, or `{m}m` when
      there are no whole hours. */
  function DurationText(hours: nat, minutes: nat): string {
    if hours > 0 then Decimal(hours) + "h " + Decimal(minutes) + "m" else Decimal(minutes) + "m"
  }

  /** `formatTime(seconds)` of the feed: whole hours and the minutes left
      over, the hours only when there is at least one; spare seconds are
      dropped. The text reads back as exactly the whole minutes. */
  function FormatTime(seconds: nat): (r: string)
    ensures ParseDuration(r) == Some(seconds / 60)
    ensures |r| >= 2 && r[|r| - 1] == 'm'
    ensures 'h' in r <==> seconds >= 3600
  {
    var hours := seconds / 3600;
    var minutes := (seconds % 3600) / 60;
    assert seconds / 60 == hours * 60 + minutes;
    if hours > 0 then
      assert DurationText(hours, minutes)[|Decimal(hours)|] == 'h';
      ParseHoursMinutes(hours, minutes);
      DurationText(hours, minutes)
    else
      ParseMinutes(minutes);
      DurationText(hours, minutes)
  }

  /** The hours and minutes `formatTime` takes from a whole number of minutes. */
  lemma MinutesFields(h: nat, m: nat)
    requires m < 60
    ensures (h * 60 + m) * 60 / 3600 == h && ((h * 60 + m) * 60 % 3600) / 60 == m
  {
    var x := (h * 60 + m) * 60;
    assert x == h * 3600 + m * 60;
    DivUnique(x / 3600, x % 3600, h, m * 60, 3600);
    DivUnique(m * 60 / 60, m * 60 % 60, m, 0, 60);
  }

  /** A whole number of minutes, written as hours and minutes below 60, is
      shown by `formatTime` as exactly that. */
  lemma FormatWholeMinutes(h: nat, m: nat, seconds: nat)
    requires m < 60 && seconds == (h * 60 + m) * 60
    ensures FormatTime(seconds) == DurationText(h, m)
  {
    MinutesFields(h, m);
  }

  /** A text the duration reader accepts is the text of the hours and minutes it reads. */
  lemma DurationWords(text: string) returns (h: nat, m: nat)
    requires ParseDuration(text).Some?
    ensures m < 60 && ParseDuration(text) == Some(h * 60 + m)
    ensures text == DurationText(h, m)
  {
    var w := Split(text, ' ');
    if |w| == 1 {
      SplitOne(text, ' ');
      HasUnitIsNumeral(w[0], 'm');
      h, m := 0, Amount(w[0], 'm');
    } else {
      SplitTwo(text, ' ');
      HasUnitIsNumeral(w[0], 'h');
      HasUnitIsNumeral(w[1], 'm');
      h, m := Amount(w[0], 'h'), Amount(w[1], 'm');
    }
  }

  /** The reader accepts no other text: whatever `ParseDuration` reads as a
      number of minutes is the feed's text for that many minutes. */
  lemma ParseDurationOnlyDisplay(text: string)
    requires ParseDuration(text).Some?
    ensures text == FormatTime(ParseDuration(text).value * 60)
  {
    var h, m := DurationWords(text);
    FormatWholeMinutes(h, m, ParseDuration(text).value * 60);
  }

  // ---------------------------------------------------------------------
  // formatTimestamp: relative time

  /** The three ways a post's age is shown. */
  datatype Age = JustNow | HoursAgo(hours: nat) | DaysAgo(days: nat)

  /** The branch `formatTimestamp` takes for a post `diffMs` milliseconds
      old (negative for a post dated in the future). Whole hours are taken
      with floor division, which `/` on integers is for a positive divisor. */
  function AgeOf(diffMs: int): (a: Age)
    ensures a == JustNow <==> diffMs < 3600000
    ensures a.HoursAgo? <==> 3600000 <= diffMs < 86400000
    ensures a.HoursAgo? ==> 1 <= a.hours < 24 && a.hours * 3600000 <= diffMs < (a.hours + 1) * 3600000
    ensures a.DaysAgo? ==> a.days >= 1 && a.days * 86400000 <= diffMs < (a.days + 1) * 86400000
  {
    var diffInHours := diffMs / 3600000;
    if diffInHours < 1 then
      JustNow
    else if diffInHours < 24 then
      HoursAgo(diffInHours)
    else
      var days := diffInHours / 24;
      assert days * 24 <= diffInHours < days * 24 + 24;
      DaysAgo(days)
  }

  function AgeText(a: Age): string {
    match a
    case JustNow => "Just now"
    case HoursAgo(h) => Decimal(h) + "h ago"
    case DaysAgo(d) => Decimal(d) + "d ago"
  }

  /** `formatTimestamp(date)`, given `now - date` in milliseconds. */
  function FormatTimestamp(diffMs: int): (r: string)
    ensures ParseAge(r) == Some(AgeOf(diffMs))
  {
    AgeTextRoundTrip(AgeOf(diffMs));
    AgeText(AgeOf(diffMs))
  }

  /** Reads a relative time back: `Just now`, `{n}h ago` or `{n}d ago`. */
  function ParseAge(text: string): Option<Age> {
    if text == "Just now" then
      Some(JustNow)
    else
      var w := Split(text, ' ');
      if |w| == 2 && w[1] == "ago" && HasUnit(w[0], 'h') then Some(HoursAgo(Amount(w[0], 'h')))
      else if |w| == 2 && w[1] == "ago" && HasUnit(w[0], 'd') then Some(DaysAgo(Amount(w[0], 'd')))
      else None
  }

  /** A number-with-unit word followed by ` ago` reads back as that many hours or days. */
  lemma ParseAgoWord(w: string, unit: char)
    requires (unit == 'h' || unit == 'd') && HasUnit(w, unit) && ' ' !in w
    ensures ParseAge(w + " ago") ==
      Some(if unit == 'h' then HoursAgo(Amount(w, 'h')) else DaysAgo(Amount(w, 'd')))
  {
    var t := w + " ago";
    assert t == w + [' '] + "ago";
    SplitWhole("ago", ' ');
    SplitAt(w, ' ', "ago");
    assert t[|w| - 1] == unit;
    assert t != "Just now";
  }

  /** Every age reads back from its text, so different ages never share one. */
  lemma AgeTextRoundTrip(a: Age)
    ensures ParseAge(AgeText(a)) == Some(a)
  {
    match a
    case JustNow =>
    case HoursAgo(n) =>
      assert AgeText(a) == Decimal(n) + ['h'] + " ago";
      AgoRoundTrip(n, 'h');
    case DaysAgo(n) =>
      assert AgeText(a) == Decimal(n) + ['d'] + " ago";
      AgoRoundTrip(n, 'd');
  }

  lemma AgoRoundTrip(n: nat, unit: char)
    requires unit == 'h' || unit == 'd'
    ensures ParseAge(Decimal(n) + [unit] + " ago") ==
      Some(if unit == 'h' then HoursAgo(n) else DaysAgo(n))
  {
    UnitRoundTrip(n, unit);
    ParseAgoWord(Decimal(n) + [unit], unit);
  }

  /** A number-with-unit word followed by ` ago` is the text of that many hours or days. */
  lemma AgoWordIsText(w: string, unit: char)
    requires (unit == 'h' || unit == 'd') && HasUnit(w, unit)
    ensures w + " ago" == AgeText(if unit == 'h' then HoursAgo(Amount(w, 'h')) else DaysAgo(Amount(w, 'd')))
  {
    HasUnitIsNumeral(w, unit);
  }

  /** The reader accepts no other text: whatever `ParseAge` reads is the
      text of that age. */
  lemma ParseAgeOnlyText(text: string)
    requires ParseAge(text).Some?
    ensures text == AgeText(ParseAge(text).value)
  {
    if text != "Just now" {
      var w := Split(text, ' ');
      SplitTwo(text, ' ');
      assert text == w[0] + " ago";
      AgoWordIsText(w[0], if HasUnit(w[0], 'h') then 'h' else 'd');
    }
  }

  /** An older post never shows a younger age. */
  lemma AgeMonotone(x: int, y: int)
    requires x <= y
    ensures AgeOf(x).HoursAgo? ==> (AgeOf(y).HoursAgo? && AgeOf(x).hours <= AgeOf(y).hours) || AgeOf(y).DaysAgo?
    ensures AgeOf(x).DaysAgo? ==> AgeOf(y).DaysAgo? && AgeOf(x).days <= AgeOf(y).days
    ensures AgeOf(y) == JustNow ==> AgeOf(x) == JustNow
  {
  }
}
