/** The background resolver of React/Utils/getBackground.ts: `getBackground`
    dispatches on the configured theme and yields an image URL, the custom
    string, an element of the local pool, or nothing. The clock, the random
    source and `toDateString` are parameters. */
module Background {
  import opened Calendar
  import opened EasterDate
  import opened Seasonal
  import opened Text

  /** `BackgroundTheme`, with the two transparent variants the resolver and
      the view also switch on. */
  datatype BackgroundTheme =
    | SeasonsAndHolidays
    | WinterCategory | SpringCategory | SummerCategory | FallCategory
    | Mountain | Lakes | Forest | Animals
    | Custom | Local | Transparent | TransparentWithShadows
  {
    /** The themes that reach the `default` branch: a fixed image category. */
    predicate IsCategory() {
      WinterCategory? || SpringCategory? || SummerCategory? || FallCategory?
      || Mountain? || Lakes? || Forest? || Animals?
    }

    /** The enum string of a category, which doubles as its search tag. */
    function CategoryTag(): (t: string)
      requires IsCategory()
      ensures '&' !in t
    {
      match this
      case WinterCategory => "winter"
      case SpringCategory => "spring"
      case SummerCategory => "summer"
      case FallCategory => "fall"
      case Mountain => "mountains"
      case Lakes => "lakes"
      case Forest => "forest"
      case Animals => "animals"
    }
  }

  /** What `getBackground` returns: a string, `null` (transparent themes) or
      `undefined` (an element read past the end of an empty local pool). */
  datatype Background = Image(url: string) | Null | Undefined

  const UnsplashPrefix: string := "https://source.unsplash.com/random?"
  const CacheTagKey: string := "&cachetag="

  /** `s.replace(/ /g, "")`: every space removed, nothing else touched. A
      text without spaces comes back as it is; the lemmas below say what
      happens to the others. */
  function WithoutSpaces(s: string): (r: string)
    ensures ' ' !in s ==> r == s
  {
    if s == [] then []
    else (if s[0] == ' ' then [] else [s[0]]) + WithoutSpaces(s[1..])
  }

  /** A character in front is dropped if it is a space and kept otherwise. */
  lemma WithoutSpacesCons(c: char, s: string)
    ensures WithoutSpaces([c] + s) == (if c == ' ' then [] else [c]) + WithoutSpaces(s)
  {
    var t := [c] + s;
    assert t[0] == c && t[1..] == s;
  }

  /** The inductive step of `WithoutSpacesAppend`: one more character in front. */
  lemma WithoutSpacesAppendStep(c: char, tail: string, b: string)
    requires WithoutSpaces(tail + b) == WithoutSpaces(tail) + WithoutSpaces(b)
    ensures WithoutSpaces([c] + tail + b) == WithoutSpaces([c] + tail) + WithoutSpaces(b)
  {
    var kept := if c == ' ' then [] else [c];
    SeqAssoc([c], tail, b);
    WithoutSpacesCons(c, tail);
    WithoutSpacesCons(c, tail + b);
    SeqAssoc(kept, WithoutSpaces(tail), WithoutSpaces(b));
  }

  /** The removal works piecewise, so the characters that stay keep their
      order: with `WithoutSpacesCons` this fixes the result completely. */
  lemma {:induction false} WithoutSpacesAppend(a: string, b: string)
    ensures WithoutSpaces(a + b) == WithoutSpaces(a) + WithoutSpaces(b)
    decreases |a|
  {
    if a == [] {
      assert a + b == b;
    } else {
      WithoutSpacesAppend(a[1..], b);
      WithoutSpacesAppendStep(a[0], a[1..], b);
      assert [a[0]] + a[1..] == a;
    }
  }

  /** No space is left, and every other character keeps its count. */
  lemma {:induction false} WithoutSpacesRemovesExactlySpaces(s: string)
    ensures ' ' !in WithoutSpaces(s)
    ensures multiset(WithoutSpaces(s)) == multiset(s)[' ' := 0]
    decreases |s|
  {
    if s != [] {
      WithoutSpacesRemovesExactlySpaces(s[1..]);
      WithoutSpacesCons(s[0], s[1..]);
      assert [s[0]] + s[1..] == s;
    }
  }

  /** The URL built for a search tag and a `toDateString` text. A tag
      without '&' and the space-free date text can be read back from it. */
  function UnsplashUrl(tag: string, dateString: string): (url: string)
    ensures '&' !in tag ==> ParseUnsplashUrl(url) == Some((tag, WithoutSpaces(dateString)))
  {
    var cache := WithoutSpaces(dateString);
    assert '&' !in tag ==> ParseUnsplashUrl(UnsplashPrefix + tag + CacheTagKey + cache) == Some((tag, cache)) by {
      if '&' !in tag {
        ParseBuiltUrl(tag, cache);
      }
    }
    UnsplashPrefix + tag + CacheTagKey + cache
  }

  /** The parser splits a built URL at the first '&', which is the one
      `CacheTagKey` starts with when the tag has none. */
  lemma ParseBuiltUrl(tag: string, cache: string)
    requires '&' !in tag
    ensures ParseUnsplashUrl(UnsplashPrefix + tag + CacheTagKey + cache) == Some((tag, cache))
  {
    var after := CacheTagKey + cache;
    var rest := tag + after;
    assert UnsplashPrefix + tag + CacheTagKey + cache == UnsplashPrefix + rest;
    ConcatParts(UnsplashPrefix, rest);
    IndexOfAfterPrefix(tag, after, '&');
    ConcatParts(tag, after);
    ConcatParts(CacheTagKey, cache);
  }

  /** Reads a URL of the shape `UnsplashUrl` builds back into its search tag
      and its cache tag. */
  function ParseUnsplashUrl(url: string): Option<(string, string)> {
    if |url| < |UnsplashPrefix| || url[..|UnsplashPrefix|] != UnsplashPrefix then None
    else
      var rest := url[|UnsplashPrefix|..];
      var i := IndexOf(rest, '&');
      var after := rest[i..];
      if |after| < |CacheTagKey| || after[..|CacheTagKey|] != CacheTagKey then None
      else Some((rest[..i], after[|CacheTagKey|..]))
  }

  /** `Math.floor(r * n)` for `r = Math.random()` in [0, 1): the index is
      the whole part of `r * n`, hence a valid index of a non-empty pool. */
  function RandomIndex(r: real, n: nat): (i: int)
    requires 0.0 <= r < 1.0
    ensures i as real <= r * n as real < (i + 1) as real
    ensures n > 0 ==> 0 <= i < n
    ensures n == 0 ==> i == 0
  {
    assert r * n as real <= n as real;
    assert n > 0 ==> r * n as real < n as real;
    (r * n as real).Floor
  }

  /** `localBackgrounds[Math.floor(Math.random() * localBackgrounds.length)]`. */
  function PickLocal(pool: seq<string>, r: real): (b: Background)
    requires 0.0 <= r < 1.0
    ensures |pool| > 0 ==> b == Image(pool[RandomIndex(r, |pool|)]) && b.url in pool
    ensures |pool| == 0 ==> b == Undefined
  {
    var i := RandomIndex(r, |pool|);
    if i < |pool| then Image(pool[i]) else Undefined
  }

  /** `getBackground(theme, customBackground, localBackgrounds)` with the
      current moment `now`, the text `dateString` of `toDateString()` and the
      random number `r`. The seasonal branch reads the clock twice, so `now`
      and `dateString` are independent. */
  function GetBackground(theme: BackgroundTheme, customBackground: string, localBackgrounds: seq<string>,
                         now: Moment, dateString: string, r: real): (b: Background)
    requires 0.0 <= r < 1.0
    requires theme.SeasonsAndHolidays? ==> ValidMoment(now) && now.date.year >= FirstGregorianYear
    ensures b == Null <==> theme.Transparent? || theme.TransparentWithShadows?
    ensures theme.Custom? ==> b == Image(customBackground)
    ensures theme.Local? ==> (b == Undefined <==> |localBackgrounds| == 0)
    ensures theme.Local? && b.Image? ==> b.url in localBackgrounds
    ensures theme.SeasonsAndHolidays? ==>
              b.Image? && ParseUnsplashUrl(b.url) == Some((SeasonalTag(now).Tag(), WithoutSpaces(dateString)))
    ensures theme.IsCategory() ==>
              b.Image? && ParseUnsplashUrl(b.url) == Some((theme.CategoryTag(), WithoutSpaces(dateString)))
  {
    match theme
    case SeasonsAndHolidays =>
      var tag := SeasonalTag(now).Tag();
      Image(UnsplashUrl(tag, dateString))
    case Custom => Image(customBackground)
    case Local => PickLocal(localBackgrounds, r)
    case Transparent => Null
    case TransparentWithShadows => Null
    case _ =>
      Image(UnsplashUrl(theme.CategoryTag(), dateString))
  }

  /** The seasonal URL depends on the moment only through its tag: two
      moments with the same tag and the same date text give the same URL. */
  lemma SeasonalUrlDependsOnTag(now1: Moment, now2: Moment, dateString: string, r1: real, r2: real)
    requires 0.0 <= r1 < 1.0 && 0.0 <= r2 < 1.0
    requires ValidMoment(now1) && now1.date.year >= FirstGregorianYear
    requires ValidMoment(now2) && now2.date.year >= FirstGregorianYear
    ensures GetBackground(SeasonsAndHolidays, "", [], now1, dateString, r1)
            == GetBackground(SeasonsAndHolidays, "", [], now2, dateString, r2)
            <==> SeasonalTag(now1).Tag() == SeasonalTag(now2).Tag()
  {
    var b1 := GetBackground(SeasonsAndHolidays, "", [], now1, dateString, r1);
    var b2 := GetBackground(SeasonsAndHolidays, "", [], now2, dateString, r2);
    if b1 == b2 {
      assert ParseUnsplashUrl(b1.url) == ParseUnsplashUrl(b2.url);
    }
  }
}
