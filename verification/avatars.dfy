/**
 * The avatar catalogue of `userAvatars.ts`: ten hosted pictures whose URL
 * holds a `{{wh}}` slot for the rendered width and height, looked up by id
 * (falling back to the first), or listed by gender and shuffled.
 */
module Avatars {
  import opened Wrappers
  import opened Profiles
  import Decimal

  /** A catalogue picture: its id and the key of its image on the host. */
  datatype Picture = Picture(id: string, key: string)

  /** An avatar as handed to the UI: its id and a ready-to-load URL. */
  datatype Avatar = Avatar(id: string, src: string)

  /** The image host's upload prefix. */
  const Host: string := "https://res." + "cloudinary.com/" + "dopcbgrcs/" + "image/upload/"
  const SizeSlot: string := "{{wh}}"
  const Path: string := ",f_auto,q_auto/v1/apps/fitness-challenger/user-avatars/"

  /** The size used when the caller gives none (or 0). */
  const DefaultSize: int := 65

  /** A picture's URL template, with the size slot still in it. */
  function TemplateOf(p: Picture): string {
    Host + SizeSlot + Path + p.key
  }

  const Catalogue: seq<Picture> := [
    Picture("fm1", "w023geq40prfw6hw8frd"),
    Picture("fm2", "mzdfy0qlpmjffo1qp06d"),
    Picture("fm3", "zcvkay8lcs0ry2qmmxwn"),
    Picture("fm4", "m0j62jierfoktawrdcvs"),
    Picture("fm5", "twpif9vqsm8yypr3qqb8"),
    Picture("m1", "vb7qjry383swjywpcfol"),
    Picture("m2", "qdk9j6ghezsusnbpa6jm"),
    Picture("m3", "ohuurr57mfkmwpxsmmmo"),
    Picture("m4", "lwzmznfxpzsxlwrwao8d"),
    Picture("m5", "ehoh1fgntm6cxvuujw3p")
  ]

  // ----- String replacement -------------------------------------------------

  /** `pat` occurs in `s` starting at `k`. */
  predicate OccursAt(s: string, pat: string, k: nat) {
    k + |pat| <= |s| && s[k..k + |pat|] == pat
  }

  /** The first position at or after `from` where `pat` occurs. */
  function IndexFrom(s: string, pat: string, from: nat): (r: Option<nat>)
    decreases |s| - from
    ensures r.Some? ==> from <= r.value && OccursAt(s, pat, r.value)
    ensures r.Some? ==> forall j :: from <= j < r.value ==> !OccursAt(s, pat, j)
    ensures r.None? ==> forall j :: from <= j ==> !OccursAt(s, pat, j)
  {
    if from + |pat| > |s| then None
    else if s[from..from + |pat|] == pat then Some(from)
    else IndexFrom(s, pat, from + 1)
  }

  /**
   * `String.prototype.replace` with a string pattern: only the first
   * occurrence is replaced, and a string without one comes back unchanged.
   */
  function ReplaceFirst(s: string, pat: string, rep: string): (r: string)
    ensures (forall j: nat :: !OccursAt(s, pat, j)) ==> r == s
    ensures forall k: nat :: OccursAt(s, pat, k) && (forall j: nat :: j < k ==> !OccursAt(s, pat, j)) ==>
      r == s[..k] + rep + s[k + |pat|..]
  {
    match IndexFrom(s, pat, 0)
    case None => s
    case Some(k) => s[..k] + rep + s[k + |pat|..]
  }

  lemma HostHasNoBrace()
    ensures '{' !in Host
  {
    assert '{' !in "https://res." && '{' !in "cloudinary.com/" && '{' !in "dopcbgrcs/" && '{' !in "image/upload/";
  }

  /** After a prefix free of `{`, the first size slot is the one right after the prefix. */
  lemma SlotAfterPrefix(h: string, rest: string, rep: string)
    requires '{' !in h
    ensures ReplaceFirst(h + SizeSlot + rest, SizeSlot, rep) == h + rep + rest
  {
    var s := h + SizeSlot + rest;
    assert s[|h|..|h| + |SizeSlot|] == SizeSlot;
    forall j: nat | j < |h|
      ensures !OccursAt(s, SizeSlot, j)
    {
      assert s[j] == h[j];
    }
    assert s[..|h|] == h;
    assert s[|h| + |SizeSlot|..] == rest;
  }

  /** The size slot's first occurrence in every template is right after the host. */
  lemma ResizeTemplate(p: Picture, rep: string)
    ensures ReplaceFirst(TemplateOf(p), SizeSlot, rep) == Host + rep + Path + p.key
  {
    HostHasNoBrace();
    assert TemplateOf(p) == Host + SizeSlot + (Path + p.key);
    SlotAfterPrefix(Host, Path + p.key, rep);
  }

  // ----- Lookup ---------------------------------------------------------------

  /** `size || 65`: an absent or zero size falls back to the default. */
  function SizeOrDefault(size: Option<int>): int {
    if size.None? || size.value == 0 then DefaultSize else size.value
  }

  /** `w_S,h_S`, the width and height transformation for the size `S`. */
  function SizeText(size: Option<int>): string {
    var s := SizeOrDefault(size);
    "w_" + Decimal.IntToString(s) + ",h_" + Decimal.IntToString(s)
  }

  /** The first picture with the given id, as `Array.prototype.find` returns it. */
  function Find(pictures: seq<Picture>, id: string): (r: Option<Picture>)
    ensures r.None? <==> forall i :: 0 <= i < |pictures| ==> pictures[i].id != id
    ensures r.Some? ==> r.value in pictures && r.value.id == id
  {
    if pictures == [] then None
    else if pictures[0].id == id then Some(pictures[0])
    else Find(pictures[1..], id)
  }

  /** A picture rendered at a size: its id, and its template with the size slot filled. */
  function Render(p: Picture, size: Option<int>): Avatar {
    Avatar(p.id, ReplaceFirst(TemplateOf(p), SizeSlot, SizeText(size)))
  }

  /** `getAvatarById`: the matching picture, or the first one when no id matches. */
  function GetAvatarById(id: string, size: Option<int>): Avatar {
    Render(Find(Catalogue, id).GetOr(Catalogue[0]), size)
  }

  /** `getAvatar`: the uploaded picture when there is a non-empty one, else the catalogue avatar at the default size. */
  function GetAvatar(profile: Profile): (url: string)
    ensures profile.avatarUrl.Some? && profile.avatarUrl.value != "" ==> url == profile.avatarUrl.value
    ensures profile.avatarUrl.None? || profile.avatarUrl.value == "" ==>
      url == GetAvatarById(profile.avatarId, None).src
  {
    match profile.avatarUrl
    case Some(u) => if u != "" then u else GetAvatarById(profile.avatarId, None).src
    case None => GetAvatarById(profile.avatarId, None).src
  }

  // ----- Listing --------------------------------------------------------------

  /** The id prefix a gender's pictures carry. */
  function GenderPrefix(g: Gender): string {
    match g
    case Male => "m"
    case Female => "fm"
  }

  predicate StartsWith(s: string, prefix: string) {
    |prefix| <= |s| && s[..|prefix|] == prefix
  }

  /** The pictures whose id starts with `prefix`, in catalogue order. */
  function WithPrefix(pictures: seq<Picture>, prefix: string): (r: seq<Picture>)
    ensures forall p :: p in r <==> p in pictures && StartsWith(p.id, prefix)
  {
    if pictures == [] then []
    else (if StartsWith(pictures[0].id, prefix) then [pictures[0]] else []) + WithPrefix(pictures[1..], prefix)
  }

  /** Renders every picture at a size. */
  function RenderAll(pictures: seq<Picture>, size: Option<int>): (r: seq<Avatar>)
    ensures |r| == |pictures|
    ensures forall i :: 0 <= i < |pictures| ==> r[i] == Render(pictures[i], size)
  {
    if pictures == [] then [] else [Render(pictures[0], size)] + RenderAll(pictures[1..], size)
  }

  /**
   * The random reordering. `picks` stands for the random draws: each step
   * moves the element at `picks[0] % (remaining)` to the output. Any
   * permutation can come out, and only permutations can.
   */
  function Shuffle(xs: seq<Avatar>, picks: seq<nat>): (r: seq<Avatar>)
    ensures multiset(r) == multiset(xs)
  {
    if xs == [] then []
    else
      var k := Draw(picks, |xs|);
      [xs[k]] + Shuffle(Without(xs, k), if picks == [] then [] else picks[1..])
  }

  /** The next draw, reduced to a position among `n` remaining elements (0 once the draws run out). */
  function Draw(picks: seq<nat>, n: nat): (k: nat)
    requires n > 0
    ensures k < n
    ensures picks != [] && picks[0] < n ==> k == picks[0]
  {
    (if picks == [] then 0 else picks[0]) % n
  }

  /** `getAvatarList`: the gender's pictures, rendered at the size, in a random order. */
  function GetAvatarList(gender: Gender, size: Option<int>, picks: seq<nat>): (r: seq<Avatar>)
    ensures multiset(r) == multiset(RenderAll(WithPrefix(Catalogue, GenderPrefix(gender)), size))
  {
    Shuffle(RenderAll(WithPrefix(Catalogue, GenderPrefix(gender)), size), picks)
  }

  // ----- Reading a rendered URL back -------------------------------------------

  /** The first position of `c` in `s`. */
  function CharIndex(s: string, c: char): (r: Option<nat>)
    ensures r.Some? ==> r.value < |s| && s[r.value] == c && c !in s[..r.value]
    ensures r.None? <==> c !in s
  {
    if s == [] then None
    else if s[0] == c then Some(0)
    else match CharIndex(s[1..], c)
      case None => None
      case Some(k) =>
        assert s[..k + 1] == [s[0]] + s[1..][..k];
        Some(k + 1)
  }

  /**
   * The width a rendered avatar URL asks the host for: the numeral between
   * `w_` and the next comma, right after the host prefix.
   */
  function Width(src: string): Option<int> {
    var lead := Host + "w_";
    if !StartsWith(src, lead) then None
    else
      var rest := src[|lead|..];
      match CharIndex(rest, ',')
      case None => None
      case Some(k) => Decimal.ParseInt(rest[..k])
  }

  lemma {:induction false} CharIndexAfter(a: string, c: char, b: string)
    requires c !in a
    ensures CharIndex(a + [c] + b, c) == Some(|a|)
  {
    if a != [] {
      assert (a + [c] + b)[1..] == a[1..] + [c] + b;
      CharIndexAfter(a[1..], c, b);
    }
  }

  lemma Regroup(h: string, t: string, path: string, key: string)
    ensures h + ("w_" + t + ",h_" + t) + path + key == h + "w_" + t + [','] + ("h_" + t + path + key)
  {
    assert ",h_" == [','] + "h_";
  }

  /** A numeral between the `w_` lead and a comma is read back as the width. */
  lemma WidthReads(t: string, tail: string)
    requires ',' !in t
    ensures Width(Host + "w_" + t + [','] + tail) == Decimal.ParseInt(t)
  {
    var lead := Host + "w_";
    var src := lead + t + [','] + tail;
    assert src[..|lead|] == lead;
    var rest := src[|lead|..];
    assert rest == t + [','] + tail;
    CharIndexAfter(t, ',', tail);
    assert rest[..|t|] == t;
  }

  /** The URL a size renders to asks for that size (or the default). */
  lemma RenderedWidth(p: Picture, size: Option<int>)
    ensures Width(Render(p, size).src) == Some(SizeOrDefault(size))
  {
    var t := Decimal.IntToString(SizeOrDefault(size));
    ResizeTemplate(p, SizeText(size));
    var tail := "h_" + t + Path + p.key;
    assert SizeText(size) == "w_" + t + ",h_" + t;
    Regroup(Host, t, Path, p.key);
    assert Render(p, size).src == Host + "w_" + t + [','] + tail;
    assert ',' !in t;
    WidthReads(t, tail);
    Decimal.IntRoundTrip(SizeOrDefault(size));
  }

  // ----- Facts about the catalogue ---------------------------------------------

  /** No two catalogue pictures share an id. */
  lemma CatalogueIdsDistinct()
    ensures forall i, j :: 0 <= i < j < |Catalogue| ==> Catalogue[i].id != Catalogue[j].id
  {
  }

  /** `getAvatarById` with a catalogue id renders that picture. */
  lemma GetAvatarByIdMatches(id: string, size: Option<int>, i: nat)
    requires i < |Catalogue| && Catalogue[i].id == id
    ensures GetAvatarById(id, size) == Avatar(id, Host + SizeText(size) + Path + Catalogue[i].key)
  {
    var p := Find(Catalogue, id).value;
    assert p == Catalogue[i] by {
      var j :| 0 <= j < |Catalogue| && Catalogue[j] == p;
      CatalogueIdsDistinct();
      assert Catalogue[j].id == Catalogue[i].id;
    }
    ResizeTemplate(Catalogue[i], SizeText(size));
  }

  /** `getAvatarById` with an unknown id renders the first picture, `fm1`. */
  lemma GetAvatarByIdFallback(id: string, size: Option<int>)
    requires forall i :: 0 <= i < |Catalogue| ==> Catalogue[i].id != id
    ensures GetAvatarById(id, size) == Avatar("fm1", Host + SizeText(size) + Path + Catalogue[0].key)
  {
    ResizeTemplate(Catalogue[0], SizeText(size));
  }

  /** The catalogue pictures of a gender: `fm1`..`fm5` for women, `m1`..`m5` for men. */
  function OfGender(g: Gender): seq<Picture> {
    match g
    case Female => Catalogue[..5]
    case Male => Catalogue[5..]
  }

  lemma {:induction false} WithPrefixAppend(a: seq<Picture>, b: seq<Picture>, prefix: string)
    ensures WithPrefix(a + b, prefix) == WithPrefix(a, prefix) + WithPrefix(b, prefix)
  {
    if a == [] {
      assert a + b == b;
    } else {
      assert (a + b)[1..] == a[1..] + b;
      WithPrefixAppend(a[1..], b, prefix);
    }
  }

  lemma {:induction false} WithPrefixAll(a: seq<Picture>, prefix: string)
    requires forall i :: 0 <= i < |a| ==> StartsWith(a[i].id, prefix)
    ensures WithPrefix(a, prefix) == a
  {
    if a != [] {
      WithPrefixAll(a[1..], prefix);
    }
  }

  lemma {:induction false} WithPrefixNone(a: seq<Picture>, prefix: string)
    requires forall i :: 0 <= i < |a| ==> !StartsWith(a[i].id, prefix)
    ensures WithPrefix(a, prefix) == []
  {
    if a != [] {
      WithPrefixNone(a[1..], prefix);
    }
  }

  /** A string whose first character differs from the prefix's does not start with it. */
  lemma DiffersAtStart(s: string, prefix: string)
    requires |s| > 0 && |prefix| > 0 && s[0] != prefix[0]
    ensures !StartsWith(s, prefix)
  {
  }

  lemma WomenIds()
    ensures forall i :: 0 <= i < 5 ==> StartsWith(Catalogue[i].id, "fm") && !StartsWith(Catalogue[i].id, "m")
  {
    forall i | 0 <= i < 5
      ensures !StartsWith(Catalogue[i].id, "m")
    {
      DiffersAtStart(Catalogue[i].id, "m");
    }
  }

  lemma MenIds()
    ensures forall i :: 5 <= i < 10 ==> StartsWith(Catalogue[i].id, "m") && !StartsWith(Catalogue[i].id, "fm")
  {
    forall i | 5 <= i < 10
      ensures !StartsWith(Catalogue[i].id, "fm")
    {
      DiffersAtStart(Catalogue[i].id, "fm");
    }
  }

  /** Filtering a list whose first `n` ids carry the prefix and the rest do not keeps the first `n`. */
  lemma FilterSplits(c: seq<Picture>, n: nat, prefix: string)
    requires n <= |c|
    requires forall i :: 0 <= i < n ==> StartsWith(c[i].id, prefix)
    requires forall i :: n <= i < |c| ==> !StartsWith(c[i].id, prefix)
    ensures WithPrefix(c, prefix) == c[..n]
  {
    assert c == c[..n] + c[n..];
    WithPrefixAppend(c[..n], c[n..], prefix);
    WithPrefixAll(c[..n], prefix);
    WithPrefixNone(c[n..], prefix);
  }

  /** The same, for a list whose first `n` ids lack the prefix and the rest carry it. */
  lemma FilterSplitsAfter(c: seq<Picture>, n: nat, prefix: string)
    requires n <= |c|
    requires forall i :: 0 <= i < n ==> !StartsWith(c[i].id, prefix)
    requires forall i :: n <= i < |c| ==> StartsWith(c[i].id, prefix)
    ensures WithPrefix(c, prefix) == c[n..]
  {
    assert c == c[..n] + c[n..];
    WithPrefixAppend(c[..n], c[n..], prefix);
    WithPrefixNone(c[..n], prefix);
    WithPrefixAll(c[n..], prefix);
  }

  /** The id-prefix filter picks exactly the gender's five pictures, in order. */
  lemma PrefixSelectsGender(g: Gender)
    ensures WithPrefix(Catalogue, GenderPrefix(g)) == OfGender(g)
  {
    WomenIds();
    MenIds();
    match g
    case Female => FilterSplits(Catalogue, 5, "fm");
    case Male => FilterSplitsAfter(Catalogue, 5, "m");
  }

  /** The listing holds each of the gender's pictures once, at the requested size. */
  lemma AvatarListContents(g: Gender, size: Option<int>, picks: seq<nat>)
    ensures multiset(GetAvatarList(g, size, picks)) == multiset(RenderAll(OfGender(g), size))
    ensures |GetAvatarList(g, size, picks)| == 5
  {
    PrefixSelectsGender(g);
    var r := GetAvatarList(g, size, picks);
    assert |r| == |multiset(r)|;
  }

  /** The position of a member of a sequence. */
  function IndexOf(xs: seq<Avatar>, x: Avatar): (k: nat)
    requires x in xs
    ensures k < |xs| && xs[k] == x
  {
    if xs[0] == x then 0 else 1 + IndexOf(xs[1..], x)
  }

  /** `xs` with the element at `k` taken out. */
  function Without(xs: seq<Avatar>, k: nat): (r: seq<Avatar>)
    requires k < |xs|
    ensures |r| == |xs| - 1
    ensures multiset(r) == multiset(xs) - multiset{xs[k]}
  {
    assert xs == xs[..k] + [xs[k]] + xs[k + 1..];
    xs[..k] + xs[k + 1..]
  }

  /** A first draw of `k` moves the element at `k` to the front. */
  lemma ShuffleStep(xs: seq<Avatar>, k: nat, tail: seq<nat>)
    requires k < |xs|
    ensures Shuffle(xs, [k] + tail) == [xs[k]] + Shuffle(Without(xs, k), tail)
  {
    var picks := [k] + tail;
    assert Draw(picks, |xs|) == k && picks[1..] == tail;
  }

  /** When `ys` rearranges `xs`, its head is in `xs` and its tail rearranges the rest. */
  lemma HeadFound(xs: seq<Avatar>, ys: seq<Avatar>)
    requires multiset(xs) == multiset(ys) && xs != []
    ensures ys != [] && ys[0] in xs
    ensures multiset(Without(xs, IndexOf(xs, ys[0]))) == multiset(ys[1..])
  {
    assert |ys| == |multiset(ys)| > 0;
    assert ys[0] in multiset(ys);
    assert ys[1..] == Without(ys, 0);
  }

  /** The draws that pick out `ys`, element by element, from what remains of `xs`. */
  function PicksFor(xs: seq<Avatar>, ys: seq<Avatar>): (picks: seq<nat>)
    requires multiset(xs) == multiset(ys)
    ensures |picks| == |xs|
    decreases |xs|
  {
    if xs == [] then []
    else
      HeadFound(xs, ys);
      var k := IndexOf(xs, ys[0]);
      [k] + PicksFor(Without(xs, k), ys[1..])
  }

  /** The first draw `PicksFor` makes is the position of the wanted head. */
  lemma PicksForFirst(xs: seq<Avatar>, ys: seq<Avatar>)
    requires multiset(xs) == multiset(ys) && xs != []
    ensures ys != [] && ys[0] in xs
    ensures multiset(Without(xs, IndexOf(xs, ys[0]))) == multiset(ys[1..])
    ensures PicksFor(xs, ys) == [IndexOf(xs, ys[0])] + PicksFor(Without(xs, IndexOf(xs, ys[0])), ys[1..])
  {
    HeadFound(xs, ys);
  }

  /** Every order can come out of the shuffle: `PicksFor` finds the draws that produce it. */
  lemma {:induction false} EveryOrderReachable(xs: seq<Avatar>, ys: seq<Avatar>)
    requires multiset(xs) == multiset(ys)
    ensures Shuffle(xs, PicksFor(xs, ys)) == ys
    decreases |xs|
  {
    if xs == [] {
      assert |ys| == |multiset(ys)| == 0;
    } else {
      PicksForFirst(xs, ys);
      var k := IndexOf(xs, ys[0]);
      var rest := Without(xs, k);
      var tail := PicksFor(rest, ys[1..]);
      calc {
        Shuffle(xs, PicksFor(xs, ys));
        Shuffle(xs, [k] + tail);
        { ShuffleStep(xs, k, tail); }
        [xs[k]] + Shuffle(rest, tail);
        { EveryOrderReachable(rest, ys[1..]); }
        [ys[0]] + ys[1..];
        ys;
      }
    }
  }

  /** Without an uploaded picture, a profile's avatar asks the host for 65 pixels. */
  lemma GetAvatarDefaultSize(profile: Profile)
    requires profile.avatarUrl.None? || profile.avatarUrl.value == ""
    ensures Width(GetAvatar(profile)) == Some(DefaultSize)
  {
    RenderedWidth(Find(Catalogue, profile.avatarId).GetOr(Catalogue[0]), None);
  }

  /** Every listed avatar is one of the gender's pictures and asks for the requested size. */
  lemma ListedAvatars(g: Gender, size: Option<int>, picks: seq<nat>, a: Avatar)
    requires a in GetAvatarList(g, size, picks)
    ensures StartsWith(a.id, GenderPrefix(g))
    ensures Width(a.src) == Some(SizeOrDefault(size))
  {
    var pictures := WithPrefix(Catalogue, GenderPrefix(g));
    var rendered := RenderAll(pictures, size);
    assert a in multiset(GetAvatarList(g, size, picks));
    assert a in rendered by { assert a in multiset(rendered); }
    var i := IndexOf(rendered, a);
    assert a == Render(pictures[i], size);
    assert pictures[i] in pictures;
    RenderedWidth(pictures[i], size);
  }
}
