/**
 * The part of `get_dog_image` that works on the image URL: the breed is the
 * path segment after `/breeds/`, with hyphens and underscores turned into
 * spaces and the words title-cased. Python's `str.split` and `str.replace`
 * are modelled on strings; `str.title` is passed in as a function.
 */
module DogBreed {
  import opened Optional

  /** The separator the URL is split on. */
  const Marker: string := "/breeds/"

  /** `pat` occurs in `s` starting at index k. */
  predicate OccursAt(s: string, pat: string, k: nat) {
    k + |pat| <= |s| && s[k..k + |pat|] == pat
  }

  /** The first index at or after `from` where `pat` occurs in `s`, if any. */
  function FindFrom(s: string, pat: string, from: nat): (r: Option<nat>)
    requires |pat| > 0
    ensures r.Some? ==> from <= r.value && OccursAt(s, pat, r.value)
    decreases |s| - from
  {
    if from + |pat| > |s| then None
    else if OccursAt(s, pat, from) then Some(from)
    else FindFrom(s, pat, from + 1)
  }

  /** The scan from `from` reports the first occurrence at or after it, and None only when there is none. */
  lemma {:induction false} FindFromSpec(s: string, pat: string, from: nat)
    requires |pat| > 0
    ensures var r := FindFrom(s, pat, from);
            r.Some? ==> forall k: nat :: from <= k < r.value ==> !OccursAt(s, pat, k)
    ensures FindFrom(s, pat, from).None? <==> forall k: nat :: from <= k ==> !OccursAt(s, pat, k)
    decreases |s| - from
  {
    if from + |pat| > |s| {
    } else if OccursAt(s, pat, from) {
    } else {
      FindFromSpec(s, pat, from + 1);
    }
  }

  /** `s.find(pat)` as `split` uses it: the first index where `pat` occurs, if any. */
  function Find(s: string, pat: string): (r: Option<nat>)
    requires |pat| > 0
    ensures r.Some? ==> OccursAt(s, pat, r.value)
  {
    FindFrom(s, pat, 0)
  }

  /** Find reports the first occurrence, and None exactly when there is no occurrence. */
  lemma FindSpec(s: string, pat: string)
    requires |pat| > 0
    ensures Find(s, pat).Some? ==> forall k: nat :: k < Find(s, pat).value ==> !OccursAt(s, pat, k)
    ensures Find(s, pat).None? <==> forall k: nat :: !OccursAt(s, pat, k)
  {
    FindFromSpec(s, pat, 0);
  }

  /** Any occurrence with none before it is the one Find reports. */
  lemma FindAt(s: string, pat: string, i: nat)
    requires |pat| > 0 && OccursAt(s, pat, i)
    requires forall k: nat :: k < i ==> !OccursAt(s, pat, k)
    ensures Find(s, pat) == Some(i)
  {
    FindSpec(s, pat);
  }

  /** `s.split(sep)` for a non-empty separator: the pieces between the occurrences, left to right. */
  function Split(s: string, sep: string): (parts: seq<string>)
    requires |sep| > 0
    ensures |parts| >= 1
    decreases |s|
  {
    match Find(s, sep)
    case None => [s]
    case Some(i) => [s[..i]] + Split(s[i + |sep|..], sep)
  }

  /** `sep.join(parts)` */
  function Join(parts: seq<string>, sep: string): (r: string)
    requires |parts| >= 1
    ensures parts[0] <= r
    ensures |parts[|parts| - 1]| <= |r| && r[|r| - |parts[|parts| - 1]|..] == parts[|parts| - 1]
  {
    if |parts| == 1 then parts[0] else parts[0] + sep + Join(parts[1..], sep)
  }

  /** Splitting loses nothing: joining the pieces back gives the original string. */
  lemma {:induction false} SplitJoin(s: string, sep: string)
    requires |sep| > 0
    ensures Join(Split(s, sep), sep) == s
    decreases |s|
  {
    match Find(s, sep)
    case None =>
    case Some(i) =>
      var rest := s[i + |sep|..];
      SplitJoin(rest, sep);
      SplitSome(s, sep, i);
      JoinCons(s[..i], Split(rest, sep), sep);
      Reassemble(s, sep, i);
  }

  /** When the separator is first found at i, the split is the text before i, then the split of the rest. */
  lemma SplitSome(s: string, sep: string, i: nat)
    requires |sep| > 0 && Find(s, sep) == Some(i)
    ensures Split(s, sep) == [s[..i]] + Split(s[i + |sep|..], sep)
  {
  }

  /** Joining a piece in front of at least one more piece puts a separator between. */
  lemma JoinCons(a: string, parts: seq<string>, sep: string)
    requires |parts| >= 1
    ensures Join([a] + parts, sep) == a + sep + Join(parts, sep)
  {
    assert ([a] + parts)[1..] == parts;
  }

  /** A string is the text before an occurrence, the occurrence, and the text after it. */
  lemma Reassemble(s: string, sep: string, i: nat)
    requires OccursAt(s, sep, i)
    ensures s == s[..i] + sep + s[i + |sep|..]
  {
    assert s[i..i + |sep|] == sep;
    assert s == s[..i] + s[i..i + |sep|] + s[i + |sep|..];
  }

  /** No piece of a split contains the separator. */
  lemma {:induction false} SplitPiecesFree(s: string, sep: string)
    requires |sep| > 0
    ensures forall p: nat, k: nat :: p < |Split(s, sep)| ==> !OccursAt(Split(s, sep)[p], sep, k)
    decreases |s|
  {
    FindSpec(s, sep);
    match Find(s, sep)
    case None =>
    case Some(i) =>
      var rest := s[i + |sep|..];
      SplitPiecesFree(rest, sep);
      var parts := Split(s, sep);
      assert parts[1..] == Split(rest, sep);
      forall k: nat ensures !OccursAt(s[..i], sep, k) {
        PrefixOccurs(s, i, sep, k);
      }
      forall p: nat, k: nat | 0 < p < |parts| ensures !OccursAt(parts[p], sep, k) {
        assert parts[p] == Split(rest, sep)[p - 1];
      }
  }

  /** An occurrence in a prefix is an occurrence in the whole string. */
  lemma PrefixOccurs(s: string, n: nat, pat: string, k: nat)
    requires n <= |s|
    ensures OccursAt(s[..n], pat, k) ==> OccursAt(s, pat, k)
  {
    if k + |pat| <= n {
      assert s[..n][k..k + |pat|] == s[k..k + |pat|];
    }
  }

  /** A one-character pattern occurs exactly where that character stands. */
  lemma CharOccurs(s: string, c: char, k: nat)
    ensures OccursAt(s, [c], k) <==> k < |s| && s[k] == c
  {
    if k < |s| { assert s[k..k + 1] == [s[k]]; }
  }

  /** The first piece of a split runs up to the first occurrence of the separator, or to the end. */
  lemma SplitHead(s: string, sep: string)
    requires |sep| > 0
    ensures Split(s, sep)[0] == match Find(s, sep) case None => s case Some(i) => s[..i]
  {
  }

  /** `s.replace(a, b)` for one character by another. */
  function ReplaceChar(s: string, a: char, b: char): (r: string)
    ensures |r| == |s|
    ensures forall i :: 0 <= i < |s| ==> r[i] == if s[i] == a then b else s[i]
  {
    if s == [] then [] else [if s[0] == a then b else s[0]] + ReplaceChar(s[1..], a, b)
  }

  /**
   * `.replace("-", " ").replace("_", " ")`: every hyphen and underscore
   * becomes a space, every other character stays.
   */
  function Spaced(seg: string): (r: string)
    ensures |r| == |seg|
    ensures forall i :: 0 <= i < |seg| ==> r[i] == if seg[i] == '-' || seg[i] == '_' then ' ' else seg[i]
    ensures '-' !in r && '_' !in r
  {
    ReplaceChar(ReplaceChar(seg, '-', ' '), '_', ' ')
  }

  /**
   * `url.split("/breeds/")[1].split("/")[0]`, with the IndexError of a URL
   * that has no `/breeds/` as None.
   */
  function BreedSegment(url: string): (r: Option<string>)
    ensures r.None? <==> Find(url, Marker).None?
    ensures r.Some? ==> '/' !in r.value
  {
    var parts := Split(url, Marker);
    if |parts| < 2 then None
    else
      var seg := Split(parts[1], "/")[0];
      SlashFree(parts[1]);
      Some(seg)
  }

  /** The first piece of a split on "/" holds no slash. */
  lemma SlashFree(s: string)
    ensures '/' !in Split(s, "/")[0]
  {
    var p := Split(s, "/")[0];
    SplitPiecesFree(s, "/");
    forall k | 0 <= k < |p| ensures p[k] != '/' {
      CharOccurs(p, '/', k);
    }
  }

  /** The URL and breed name that `get_dog_image` returns. */
  datatype Dog = Dog(url: string, breed: string)

  /**
   * Lines 88-95 of `get_dog_image`, given the `message` URL: the breed
   * segment spaced and title-cased, or None when the URL has no `/breeds/`.
   */
  function ParseDog(url: string, title: string -> string): (r: Option<Dog>)
    ensures r.None? <==> forall k: nat :: !OccursAt(url, Marker, k)
    ensures r.Some? ==> r.value.url == url
  {
    BreedSegmentNone(url);
    match BreedSegment(url)
    case None => None
    case Some(seg) => Some(Dog(url, title(Spaced(seg))))
  }

  /**
   * Every URL of the shape `pre + "/breeds/" + seg + tail`, with no earlier
   * `/breeds/`, seg free of slashes and tail empty or starting with one,
   * yields seg spaced and title-cased as its breed.
   */
  lemma ParseDogIs(url: string, pre: string, seg: string, tail: string, title: string -> string)
    requires url == pre + Marker + seg + tail
    requires forall k: nat :: k < |pre| ==> !OccursAt(url, Marker, k)
    requires '/' !in seg
    requires tail == [] || tail[0] == '/'
    ensures ParseDog(url, title) == Some(Dog(url, title(Spaced(seg))))
  {
    BreedSegmentIs(url, pre, seg, tail);
  }

  /** A URL yields no breed exactly when `/breeds/` does not occur in it. */
  lemma BreedSegmentNone(url: string)
    ensures BreedSegment(url).None? <==> forall k: nat :: !OccursAt(url, Marker, k)
  {
    FindSpec(url, Marker);
  }

  /** `/breeds/` starts with a slash, so it cannot start in a slash-free stretch. */
  lemma NoMarkerBetween(s: string, a: nat, b: nat)
    requires a <= b <= |s| && '/' !in s[a..b]
    ensures forall k: nat :: a <= k < b ==> !OccursAt(s, Marker, k)
  {
    forall k: nat | a <= k < b ensures !OccursAt(s, Marker, k) {
      if k + |Marker| <= |s| {
        assert s[a..b][k - a] == s[k];
        assert s[k..k + |Marker|][0] == s[k];
      }
    }
  }

  /** Splitting at an occurrence with none before it gives the text before it, then the split of the rest. */
  lemma SplitAtFirst(s: string, sep: string, i: nat)
    requires |sep| > 0 && OccursAt(s, sep, i)
    requires forall k: nat :: k < i ==> !OccursAt(s, sep, k)
    ensures Split(s, sep) == [s[..i]] + Split(s[i + |sep|..], sep)
  {
    FindAt(s, sep, i);
    SplitSome(s, sep, i);
  }

  /**
   * Cutting `seg + tail` at its first `/breeds/` keeps all of seg, and what
   * follows seg, if anything, starts with a slash.
   */
  lemma CutKeepsSegment(seg: string, tail: string)
    requires '/' !in seg
    requires tail == [] || tail[0] == '/'
    ensures var p := Split(seg + tail, Marker)[0];
            |seg| <= |p| && p[..|seg|] == seg && (|p| > |seg| ==> p[|seg|] == '/')
  {
    var rest := seg + tail;
    SplitHead(rest, Marker);
    assert rest[..|seg|] == seg;
    NoMarkerBetween(rest, 0, |seg|);
    match Find(rest, Marker)
    case None =>
    case Some(j) =>
      assert rest[j..j + |Marker|][0] == rest[j];
  }

  /** Text that is seg, possibly followed by a slash and more, splits on "/" to seg first. */
  lemma HeadBeforeSlash(p: string, seg: string)
    requires '/' !in seg
    requires |seg| <= |p| && p[..|seg|] == seg && (|p| > |seg| ==> p[|seg|] == '/')
    ensures Split(p, "/")[0] == seg
  {
    SplitHead(p, "/");
    forall k: nat | k < |seg| ensures !OccursAt(p, "/", k) {
      CharOccurs(p, '/', k);
      assert p[k] == p[..|seg|][k];
    }
    if |p| == |seg| {
      assert p == seg;
      forall k: nat ensures !OccursAt(p, "/", k) {
        CharOccurs(p, '/', k);
      }
    } else {
      CharOccurs(p, '/', |seg|);
      FindAt(p, "/", |seg|);
    }
  }

  /**
   * The breed segment is the text after the first `/breeds/` up to the next
   * slash or the end of the URL.
   */
  lemma {:induction false} BreedSegmentIs(url: string, pre: string, seg: string, tail: string)
    requires url == pre + Marker + seg + tail
    requires forall k: nat :: k < |pre| ==> !OccursAt(url, Marker, k)
    requires '/' !in seg
    requires tail == [] || tail[0] == '/'
    ensures BreedSegment(url) == Some(seg)
  {
    var m := |pre| + |Marker|;
    assert url[|pre|..m] == Marker;
    assert url[m..] == seg + tail;
    SplitAtFirst(url, Marker, |pre|);
    CutKeepsSegment(seg, tail);
    HeadBeforeSlash(Split(seg + tail, Marker)[0], seg);
  }

  /** Spacing works character by character, so it distributes over concatenation. */
  lemma SpacedAppend(a: string, b: string)
    ensures Spaced(a + b) == Spaced(a) + Spaced(b)
  {
  }

  /** A string with no hyphen or underscore is left as it is. */
  lemma SpacedKeeps(s: string)
    requires '-' !in s && '_' !in s
    ensures Spaced(s) == s
  {
  }

  /**
   * A hyphenated two-word breed, as in the URL in the comment of
   * `get_dog_image` (`.../breeds/hound-afghan/n02088094_1003.jpg`): the
   * breed handed to title-casing is the two words with a space between.
   */
  lemma TwoWordBreed(url: string, pre: string, a: string, b: string, tail: string, title: string -> string)
    requires url == pre + Marker + a + "-" + b + tail
    requires forall k: nat :: k < |pre| ==> !OccursAt(url, Marker, k)
    requires '/' !in a && '-' !in a && '_' !in a
    requires '/' !in b && '-' !in b && '_' !in b
    requires tail == [] || tail[0] == '/'
    ensures ParseDog(url, title) == Some(Dog(url, title(a + " " + b)))
  {
    var seg := a + "-" + b;
    assert url == pre + Marker + seg + tail;
    assert '/' !in seg;
    BreedSegmentIs(url, pre, seg, tail);
    SpacedAppend(a + "-", b);
    SpacedAppend(a, "-");
    SpacedKeeps(a);
    SpacedKeeps(b);
    assert Spaced("-") == " " by { assert Spaced("-")[0] == ' '; }
  }
}
