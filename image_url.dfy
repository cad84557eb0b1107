/** Choosing a product's image source and cleaning it into a usable URL
    (main.js, the image code inside displayTable). */
module ImageUrl {
  import opened Wrappers
  import opened Text
  import opened Products

  const DEFAULT_IMG: string := "https://i.imgur.com/1k9dY5L.png"
  const API_ORIGIN: string := "https://api.escuelajs.co"

  /** A character that ends the URL run of the pattern /^(https?:\/\/[^\s"']+)/i. */
  predicate IsStop(c: char) {
    IsSpace(c) || c == '"' || c == '\''
  }

  predicate NoStop(s: string) {
    forall i :: 0 <= i < |s| ==> !IsStop(s[i])
  }

  /** The length of a leading `http://` (7) or `https://` (8), letters in any
      ASCII case; 0 when the string starts with neither. */
  function SchemeLength(u: string): (k: nat)
    ensures k == 0 || k == 7 || k == 8
    ensures k <= |u|
  {
    if |u| >= 7 && LowerChar(u[0]) == 'h' && LowerChar(u[1]) == 't'
       && LowerChar(u[2]) == 't' && LowerChar(u[3]) == 'p' then
      if u[4] == ':' && u[5] == '/' && u[6] == '/' then 7
      else if |u| >= 8 && LowerChar(u[4]) == 's' && u[5] == ':' && u[6] == '/' && u[7] == '/' then 8
      else 0
    else 0
  }

  /** SchemeLength is 7 exactly for a leading `http://` and 8 exactly for a
      leading `https://`, compared after the ASCII case fold. */
  lemma SchemeLengthMeaning(u: string)
    ensures SchemeLength(u) == 7 <==> |u| >= 7 && Lower(u[..7]) == "http://"
    ensures SchemeLength(u) == 8 <==> |u| >= 8 && Lower(u[..8]) == "https://"
  {
    if |u| >= 7 {
      var l := Lower(u[..7]);
      assert forall i :: 0 <= i < 7 ==> l[i] == LowerChar(u[i]);
    }
    if |u| >= 8 {
      var l := Lower(u[..8]);
      assert forall i :: 0 <= i < 8 ==> l[i] == LowerChar(u[i]);
    }
  }

  /** The number of leading characters before the first stop character: the
      greedy `[^\s"']+` part of the pattern. */
  function RunLength(s: string): (n: nat)
    ensures n <= |s| && NoStop(s[..n])
    ensures n == |s| || IsStop(s[n])
  {
    if |s| > 0 && !IsStop(s[0]) then
      var n := 1 + RunLength(s[1..]);
      assert s[..n] == [s[0]] + s[1..][..n - 1];
      n
    else 0
  }

  /** A string the pattern matches as a whole: a scheme followed by at least
      one character, and no stop character anywhere. */
  predicate HttpShaped(c: string) {
    SchemeLength(c) > 0 && |c| > SchemeLength(c) && NoStop(c)
  }

  /** The scheme's own characters are never stop characters. */
  lemma SchemeNoStop(u: string)
    requires SchemeLength(u) > 0
    ensures NoStop(u[..SchemeLength(u)])
  {
  }

  /** SchemeLength looks at the first eight characters only. */
  lemma SchemeLengthOfPrefix(u: string, c: string)
    requires |c| >= 8 && StartsWith(u, c)
    ensures SchemeLength(c) == SchemeLength(u)
  {
    assert forall i :: 0 <= i < 8 ==> c[i] == u[i];
  }

  /** A string without stop characters is one run. */
  lemma {:induction false} RunLengthAll(s: string)
    requires NoStop(s)
    ensures RunLength(s) == |s|
  {
    if |s| > 0 {
      RunLengthAll(s[1..]);
    }
  }

  /** A run at least as long as a stop-free prefix. */
  lemma {:induction false} RunLengthCovers(a: string, b: string)
    requires NoStop(a)
    ensures RunLength(a + b) >= |a|
  {
    if |a| > 0 {
      assert (a + b)[1..] == a[1..] + b;
      RunLengthCovers(a[1..], b);
    }
  }

  /** The regular expression of main.js:89 as a prefix scan: Some(c) where c
      is the longest `http(s)://…` prefix, None when there is none. */
  function MatchHttp(u: string): (m: Option<string>)
    ensures m.Some? ==> StartsWith(u, m.value) && HttpShaped(m.value)
    ensures m.Some? ==> |m.value| == |u| || IsStop(u[|m.value|])
    ensures m.None? ==> forall n :: 0 <= n <= |u| ==> !HttpShaped(u[..n])
  {
    var k := SchemeLength(u);
    if k > 0 && RunLength(u[k..]) > 0 then
      var n := RunLength(u[k..]);
      var c := u[..k + n];
      SchemeNoStop(u);
      SchemeLengthOfPrefix(u, c);
      assert c[..k] == u[..k] && c[k..] == u[k..][..n];
      assert forall i :: 0 <= i < |c| ==> (i < k ==> c[i] == u[..k][i]) && (i >= k ==> c[i] == u[k..][..n][i - k]);
      Some(c)
    else
      assert forall n :: 0 <= n <= |u| ==> !HttpShaped(u[..n]) by {
        forall n | 0 <= n <= |u| && HttpShaped(u[..n])
          ensures false
        {
          var c := u[..n];
          SchemeLengthOfPrefix(u, c);
        }
      }
      None
  }

  /** The denylist test of main.js:92: the text contains `placeimg.com` or
      `via.placeholder.com` anywhere (scheme, host, path or query), compared
      case-sensitively. */
  predicate Denied(c: string) {
    Contains(c, "placeimg.com") || Contains(c, "via.placeholder.com")
  }

  /** A leading '/' is a path on the API's own host. */
  function Absolutize(t: string): string {
    if StartsWith(t, "/") then API_ORIGIN + t else t
  }

  /** What cleanImageUrl may return: the default image, a trimmed data URI,
      or a whole match of the URL pattern that contains neither denied string. */
  predicate IsClean(r: string) {
    || r == DEFAULT_IMG
    || (StartsWith(r, "data:image/") && Trimmed(r))
    || (HttpShaped(r) && !Denied(r))
  }

  /** Steps after the string check (main.js:86-95): trim, make a root-relative
      path absolute, pass data URIs through, keep the URL run or fall back. */
  function CleanText(s: string): (r: string)
    ensures IsClean(r)
    ensures r == DEFAULT_IMG || StartsWith(Absolutize(Trim(s)), r)
    ensures StartsWith(Absolutize(Trim(s)), "data:image/") ==> r == Absolutize(Trim(s))
  {
    var t := Trim(s);
    var u := Absolutize(t);
    if StartsWith(u, "data:image/") then
      assert u[0] == 'd' && u[..|u|] == u;
      u
    else
      match MatchHttp(u)
      case None => DEFAULT_IMG
      case Some(c) => if Denied(c) then DEFAULT_IMG else c
  }

  /** First element of an array, null for an empty one (main.js:83). */
  function FirstOf(v: ImageValue): ImageValue {
    if v.Arr? then (if |v.items| > 0 then v.items[0] else Absent) else v
  }

  /** `url.url || url.src || null` for anything typeof calls an object
      (main.js:84); an array has neither property. */
  function FieldOf(v: ImageValue): ImageValue {
    match v
    case Obj(u, s) => if Truthy(u) then u else if Truthy(s) then s else Absent
    case Arr(_) => Absent
    case _ => v
  }

  /** cleanImageUrl (main.js:81-96). */
  function CleanImageUrl(v: ImageValue): (r: string)
    ensures IsClean(r)
    ensures r != ""
  {
    if !Truthy(v) then DEFAULT_IMG
    else
      var w := FieldOf(FirstOf(v));
      if w.Str? && w.value != "" then CleanText(w.value) else DEFAULT_IMG
  }

  /** A string value is cleaned as its text; the empty string is falsy
      (main.js:82, 85). */
  lemma StringValue(x: string)
    ensures CleanImageUrl(Str(x)) == if x == "" then DEFAULT_IMG else CleanText(x)
  {
  }

  /** An array is cleaned as its first element (main.js:83): an empty one
      gives the default, and so does a first element that is itself an
      array, since an array has neither `url` nor `src`. */
  lemma ArrayValue(items: seq<ImageValue>)
    ensures items == [] ==> CleanImageUrl(Arr(items)) == DEFAULT_IMG
    ensures items != [] && !items[0].Arr? ==> CleanImageUrl(Arr(items)) == CleanImageUrl(items[0])
    ensures items != [] && items[0].Arr? ==> CleanImageUrl(Arr(items)) == DEFAULT_IMG
  {
  }

  /** An object is cleaned as its truthy `url`, else its truthy `src`, and
      only a string there gives a URL (main.js:84-85). */
  lemma ObjectValue(url: ImageValue, src: ImageValue)
    ensures Truthy(url) ==> CleanImageUrl(Obj(url, src)) == if url.Str? then CleanText(url.value) else DEFAULT_IMG
    ensures !Truthy(url) && Truthy(src) ==> CleanImageUrl(Obj(url, src)) == if src.Str? then CleanText(src.value) else DEFAULT_IMG
    ensures !Truthy(url) && !Truthy(src) ==> CleanImageUrl(Obj(url, src)) == DEFAULT_IMG
  {
  }

  /** Two prefixes of `u` of the URL shape that both end where the run of
      non-stop characters ends are the same prefix. */
  lemma MaximalPrefixUnique(u: string, c: string, d: string)
    requires StartsWith(u, c) && HttpShaped(c) && (|c| == |u| || IsStop(u[|c|]))
    requires StartsWith(u, d) && HttpShaped(d) && (|d| == |u| || IsStop(u[|d|]))
    ensures c == d
  {
    assert c == u[..|c|] && d == u[..|d|];
  }

  /** Cleaning keeps the `http(s)://` run at the start of the trimmed,
      absolutized value, up to the first stop character, unless that run
      contains a denied string anywhere (main.js:89-93). */
  lemma CleanTextKeepsRun(s: string, c: string)
    requires !StartsWith(Absolutize(Trim(s)), "data:image/")
    requires StartsWith(Absolutize(Trim(s)), c) && HttpShaped(c)
    requires |c| == |Absolutize(Trim(s))| || IsStop(Absolutize(Trim(s))[|c|])
    ensures CleanText(s) == if Denied(c) then DEFAULT_IMG else c
  {
    var u := Absolutize(Trim(s));
    assert c == u[..|c|];
    var m := MatchHttp(u);
    assert m.Some?;
    MaximalPrefixUnique(u, m.value, c);
  }

  /** A value with no `http(s)://` prefix that is not a data URI falls back
      to the default image (main.js:95). */
  lemma CleanTextNoRun(s: string)
    requires !StartsWith(Absolutize(Trim(s)), "data:image/")
    requires forall n :: 0 <= n <= |Absolutize(Trim(s))| ==> !HttpShaped(Absolutize(Trim(s))[..n])
    ensures CleanText(s) == DEFAULT_IMG
  {
    assert MatchHttp(Absolutize(Trim(s))).None?;
  }

  /** A needle that starts at some position of the haystack is contained in it. */
  lemma {:induction false} ContainsAt(hay: string, needle: string, k: nat)
    requires k <= |hay| && StartsWith(hay[k..], needle)
    ensures Contains(hay, needle)
    decreases k
  {
    if k > 0 {
      assert hay[1..][k - 1..] == hay[k..];
      ContainsAt(hay[1..], needle, k - 1);
    }
  }

  /** Every character of the needle occurs in a string that contains it. */
  lemma {:induction false} ContainsHasChars(hay: string, needle: string, c: char)
    requires Contains(hay, needle) && c in needle
    ensures c in hay
  {
    if StartsWith(hay, needle) {
      assert hay[..|needle|] == needle;
    } else {
      ContainsHasChars(hay[1..], needle, c);
    }
  }

  /** The default image is itself a clean URL of the http shape. */
  lemma DefaultIsHttp()
    ensures HttpShaped(DEFAULT_IMG) && !Denied(DEFAULT_IMG)
  {
    DefaultScheme();
    DefaultNoStop();
    DefaultNotDenied();
  }

  lemma DefaultScheme()
    ensures SchemeLength(DEFAULT_IMG) == 8 && |DEFAULT_IMG| > 8
  {
    var d := DEFAULT_IMG;
    assert d[0] == 'h' && d[1] == 't' && d[2] == 't' && d[3] == 'p' && d[4] == 's'
      && d[5] == ':' && d[6] == '/' && d[7] == '/';
  }

  lemma DefaultNoStop()
    ensures NoStop(DEFAULT_IMG)
  {
    assert DEFAULT_IMG == "https://i.imgur.com/1k9dY5L.png";
  }

  /** A string without an 'l' contains neither denied string. */
  lemma NoLNotDenied(u: string)
    requires 'l' !in u
    ensures !Denied(u)
  {
    if Contains(u, "placeimg.com") {
      ContainsHasChars(u, "placeimg.com", 'l');
    }
    if Contains(u, "via.placeholder.com") {
      ContainsHasChars(u, "via.placeholder.com", 'l');
    }
  }

  lemma DefaultHasNoL()
    ensures 'l' !in DEFAULT_IMG
  {
  }

  lemma DefaultNotDenied()
    ensures !Denied(DEFAULT_IMG)
  {
    DefaultHasNoL();
    NoLNotDenied(DEFAULT_IMG);
  }

  /** A whole match of the URL pattern that contains neither denied string is kept as it is. */
  lemma HttpIsFixed(r: string)
    requires HttpShaped(r) && !Denied(r)
    ensures CleanText(r) == r
  {
    HttpStart(r);
    TrimOfTrimmed(r);
    assert Absolutize(r) == r;
    assert !StartsWith(r, "data:image/");
    WholeMatch(r);
  }

  /** A string of the http shape starts with 'h' or 'H' and has no white
      space at its ends. */
  lemma HttpStart(r: string)
    requires HttpShaped(r)
    ensures (r[0] == 'h' || r[0] == 'H') && Trimmed(r)
  {
    assert LowerChar(r[0]) == 'h';
    assert !IsStop(r[0]) && !IsStop(r[|r| - 1]);
  }

  /** A string the pattern matches as a whole is its own match. */
  lemma WholeMatch(r: string)
    requires HttpShaped(r)
    ensures MatchHttp(r) == Some(r)
  {
    var k := SchemeLength(r);
    RunLengthAll(r[k..]);
    assert r[..k + (|r| - k)] == r;
  }

  /** A trimmed data URI is kept as it is. */
  lemma DataIsFixed(r: string)
    requires StartsWith(r, "data:image/") && Trimmed(r)
    ensures CleanText(r) == r
  {
    assert r[0] == 'd';
    TrimOfTrimmed(r);
    assert Absolutize(Trim(r)) == r;
  }

  /** A clean URL passes through cleaning unchanged. */
  lemma CleanIsFixed(r: string)
    requires IsClean(r)
    ensures CleanImageUrl(Str(r)) == r
  {
    if r == DEFAULT_IMG {
      DefaultIsHttp();
      HttpIsFixed(r);
    } else if HttpShaped(r) && !Denied(r) {
      HttpIsFixed(r);
    } else {
      DataIsFixed(r);
    }
  }

  /** Cleaning is idempotent: cleaning a cleaned value gives it back. */
  lemma CleanIdempotent(v: ImageValue)
    ensures CleanImageUrl(Str(CleanImageUrl(v))) == CleanImageUrl(v)
  {
    CleanIsFixed(CleanImageUrl(v));
  }

  lemma NoStopConcat(a: string, b: string)
    requires NoStop(a) && NoStop(b)
    ensures NoStop(a + b)
  {
    assert forall i :: 0 <= i < |a + b| ==> (a + b)[i] == if i < |a| then a[i] else b[i - |a|];
  }

  lemma OriginSplit()
    ensures API_ORIGIN == "https://" + "api.escuelajs.co"
  {
  }

  lemma HostNoStop()
    ensures NoStop("api.escuelajs.co/")
  {
  }

  lemma OriginScheme(u: string)
    requires StartsWith(u, "https://")
    ensures SchemeLength(u) == 8
  {
    assert u[..8] == "https://";
    assert u[0] == 'h' && u[1] == 't' && u[2] == 't' && u[3] == 'p' && u[4] == 's'
      && u[5] == ':' && u[6] == '/' && u[7] == '/';
  }

  /** The URL pattern on the origin followed by a path: it matches, the
      match covers the origin and the slash, and all of a stop-free path. */
  lemma OriginMatch(t: string)
    requires StartsWith(t, "/")
    ensures MatchHttp(API_ORIGIN + t).Some?
    ensures StartsWith(MatchHttp(API_ORIGIN + t).value, API_ORIGIN + "/")
    ensures NoStop(t) ==> MatchHttp(API_ORIGIN + t).value == API_ORIGIN + t
  {
    var u := API_ORIGIN + t;
    OriginSplit();
    HostNoStop();
    var host := "api.escuelajs.co/";
    assert u == "https://" + host + t[1..];
    OriginScheme(u);
    assert u[8..] == host + t[1..];
    RunLengthCovers(host, t[1..]);
    var n := RunLength(u[8..]);
    var c := u[..8 + n];
    assert MatchHttp(u) == Some(c);
    assert c[..25] == API_ORIGIN + "/";
    if NoStop(t) {
      assert NoStop(t[1..]);
      NoStopConcat(host, t[1..]);
      RunLengthAll(u[8..]);
      assert c == u;
    }
  }

  /** A root-relative path becomes a URL on the API host (main.js:87): the
      result is the default image or starts with the origin and the slash,
      and a path with no stop character and no denied string is kept whole. */
  lemma RootRelativeGetsOrigin(s: string)
    requires StartsWith(Trim(s), "/")
    ensures CleanText(s) == DEFAULT_IMG || StartsWith(CleanText(s), API_ORIGIN + "/")
    ensures NoStop(Trim(s)) && !Denied(API_ORIGIN + Trim(s)) ==> CleanText(s) == API_ORIGIN + Trim(s)
  {
    var t := Trim(s);
    var u := API_ORIGIN + t;
    assert Absolutize(t) == u;
    assert u[0] == 'h';
    assert !StartsWith(u, "data:image/");
    OriginMatch(t);
    var c := MatchHttp(u).value;
    assert CleanText(s) == if Denied(c) then DEFAULT_IMG else c;
  }

  /** A trimmed value that is a whole URL containing a denied string falls back to the default image. */
  lemma DeniedUrlFallsBack(s: string)
    requires HttpShaped(Trim(s)) && Denied(Trim(s))
    ensures CleanText(s) == DEFAULT_IMG
  {
    var t := Trim(s);
    HttpStart(t);
    assert Absolutize(t) == t;
    assert !StartsWith(t, "data:image/");
    WholeMatch(t);
  }

  /** `images` is an array with a first element. */
  predicate HasFirstImage(p: Product) {
    p.images.Arr? && |p.images.items| > 0
  }

  /** The image source of a product (main.js:71-78): the first element of
      `images`, else a truthy `image`, else a truthy `thumbnail`, else the
      default image. */
  function SelectImageSource(p: Product): (v: ImageValue)
    ensures HasFirstImage(p) ==> v == p.images.items[0]
    ensures !HasFirstImage(p) && Truthy(p.image) ==> v == p.image
    ensures !HasFirstImage(p) && !Truthy(p.image) && Truthy(p.thumbnail) ==> v == p.thumbnail
    ensures !HasFirstImage(p) && !Truthy(p.image) && !Truthy(p.thumbnail) ==> v == Str(DEFAULT_IMG)
    ensures !HasFirstImage(p) ==> Truthy(v)
  {
    if HasFirstImage(p) then p.images.items[0]
    else if Truthy(p.image) then p.image
    else if Truthy(p.thumbnail) then p.thumbnail
    else Str(DEFAULT_IMG)
  }

  /** The `src` of the product's image cell (main.js:71-98). */
  function ImageCell(p: Product): (r: string)
    ensures IsClean(r) && r != ""
  {
    CleanImageUrl(SelectImageSource(p))
  }

  lemma SampleScheme(u: string)
    requires u == "http://x.com/a.jpg"
    ensures SchemeLength(u) == 7 && |u| > 7
  {
    assert u[0] == 'h' && u[1] == 't' && u[2] == 't' && u[3] == 'p'
      && u[4] == ':' && u[5] == '/' && u[6] == '/';
  }

  lemma SampleNoStop(u: string)
    requires u == "http://x.com/a.jpg"
    ensures NoStop(u)
  {
  }

  lemma SampleNotDenied(u: string)
    requires u == "http://x.com/a.jpg"
    ensures !Denied(u)
  {
    assert 'l' !in u;
    NoLNotDenied(u);
  }

  lemma DeniedSampleScheme(c: string)
    requires c == "http://placeimg.com/a"
    ensures SchemeLength(c) == 7 && |c| > 7 && NoStop(c)
  {
    assert c[0] == 'h' && c[1] == 't' && c[2] == 't' && c[3] == 'p'
      && c[4] == ':' && c[5] == '/' && c[6] == '/';
  }

  lemma DeniedSampleMarker(c: string)
    requires c == "http://placeimg.com/a"
    ensures Denied(c)
  {
    assert c[7..][..12] == "placeimg.com";
    ContainsAt(c, "placeimg.com", 7);
  }

  lemma DeniedSampleText(s: string, c: string)
    requires s == "http://placeimg.com/a b" && c == "http://placeimg.com/a"
    ensures Absolutize(Trim(s)) == s && !StartsWith(s, "data:image/")
    ensures StartsWith(s, c) && IsStop(s[|c|])
  {
    assert !IsSpace(s[0]) && !IsSpace(s[|s| - 1]);
    TrimOfTrimmed(s);
    assert s[..|c|] == c;
  }

  /** A URL run containing a denied string falls back even when text follows it. */
  lemma DeniedRunFallsBack()
    ensures CleanText("http://placeimg.com/a b") == DEFAULT_IMG
  {
    var s := "http://placeimg.com/a b";
    var c := "http://placeimg.com/a";
    DeniedSampleText(s, c);
    DeniedSampleScheme(c);
    DeniedSampleMarker(c);
    CleanTextKeepsRun(s, c);
  }

  lemma UpperSampleShape(u: string)
    requires u == "http://PLACEIMG.COM/a"
    ensures HttpShaped(u) && 'l' !in u
  {
    assert u[0] == 'h' && u[1] == 't' && u[2] == 't' && u[3] == 'p'
      && u[4] == ':' && u[5] == '/' && u[6] == '/';
  }

  /** The denylist test is case-sensitive: an upper-case placeholder host is kept. */
  lemma UpperCaseHostKept()
    ensures CleanText("http://PLACEIMG.COM/a") == "http://PLACEIMG.COM/a"
  {
    var u := "http://PLACEIMG.COM/a";
    UpperSampleShape(u);
    NoLNotDenied(u);
    HttpIsFixed(u);
  }

  lemma PathSampleShape(u: string)
    requires u == "http://x.com/placeimg.com.png"
    ensures HttpShaped(u) && Trimmed(u)
  {
    assert u[0] == 'h' && u[1] == 't' && u[2] == 't' && u[3] == 'p'
      && u[4] == ':' && u[5] == '/' && u[6] == '/';
    assert !IsSpace(u[0]) && !IsSpace(u[|u| - 1]);
  }

  lemma PathSampleMarker(u: string)
    requires u == "http://x.com/placeimg.com.png"
    ensures Denied(u)
  {
    assert u[13..][..12] == "placeimg.com";
    ContainsAt(u, "placeimg.com", 13);
  }

  /** The denylist test looks at the whole URL: a denied string in the path
      of another host gives the default image. */
  lemma DeniedInPathFallsBack()
    ensures CleanText("http://x.com/placeimg.com.png") == DEFAULT_IMG
  {
    var u := "http://x.com/placeimg.com.png";
    PathSampleShape(u);
    PathSampleMarker(u);
    TrimOfTrimmed(u);
    DeniedUrlFallsBack(u);
  }

  /** An empty `images` array and a null `image` fall through to the thumbnail. */
  lemma ThumbnailFallback(id: int, title: string)
    ensures ImageCell(Product(id, title, None, None, Arr([]), Absent, Str("http://x.com/a.jpg")))
      == "http://x.com/a.jpg"
  {
    var u := "http://x.com/a.jpg";
    var p := Product(id, title, None, None, Arr([]), Absent, Str(u));
    assert SelectImageSource(p) == Str(u);
    assert CleanImageUrl(Str(u)) == CleanText(u);
    SampleScheme(u);
    SampleNoStop(u);
    SampleNotDenied(u);
    HttpIsFixed(u);
  }
}
