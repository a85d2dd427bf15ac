/**
 The staging directory of main.py, seen as a map from file name to contents:
 `save` writes one downloaded page into it, `create_pdf` reads its `.jpg`
 entries back in natural-sort order, and `clean_up` deletes them.
 */
module Staging {
  import opened Text
  import opened Http
  import opened NaturalSort

  /** The `imgs` directory: file name to file contents. */
  type Store = map<string, Bytes>

  /** `f"img{num}.jpg"`. */
  function ImageName(num: int): string {
    "img" + IntToString(num) + ".jpg"
  }

  /** `file.lower().endswith('.jpg')`. */
  function IsJpg(name: string): (r: bool)
    ensures r <==> |name| >= 4 && forall k :: 0 <= k < 4 ==> LowerChar(name[|name| - 4 + k]) == ".jpg"[k]
  {
    EndsWithAt(Lower(name), ".jpg");
    EndsWith(Lower(name), ".jpg")
  }

  /** What `save` leaves behind: the directory, and whether it asked the requester to close. */
  datatype Saved = Saved(store: Store, closeRequested: bool)

  /**
   `Main.save(req, num)`. Status 400 ends the download: nothing is written and
   the requester is asked to close. Any other status but 200 is skipped. A 200
   writes the body under `img{num}.jpg` unless a file of that name is already
   there.
   */
  function Save(store: Store, resp: Response, num: int): (r: Saved)
    ensures r.closeRequested <==> resp.status == StatusTerminal
    ensures resp.status != StatusOk ==> r.store == store
    ensures forall k :: k in store ==> k in r.store && r.store[k] == store[k]
    ensures forall k :: k in r.store && k !in store ==> k == ImageName(num) && r.store[k] == resp.content
    ensures resp.status == StatusOk ==> ImageName(num) in r.store
  {
    if resp.status == StatusTerminal then
      Saved(store, true)
    else if resp.status != StatusOk then
      Saved(store, false)
    else if ImageName(num) in store then
      Saved(store, false)
    else
      Saved(store[ImageName(num) := resp.content], false)
  }

  /** Saving the same page twice changes nothing the second time. */
  lemma SaveIdempotent(store: Store, resp: Response, num: int)
    ensures Save(Save(store, resp, num).store, resp, num).store == Save(store, resp, num).store
  {
  }

  /** The name of a page determines the page number. */
  lemma ImageNameInjective(n: int, m: int)
    ensures ImageName(n) == ImageName(m) <==> n == m
  {
    if ImageName(n) == ImageName(m) {
      var a, b := IntToString(n), IntToString(m);
      assert |a| == |b|;
      assert a == ImageName(n)[3..3 + |a|];
      assert b == ImageName(m)[3..3 + |b|];
      IntToStringInjective(n, m);
    }
  }

  /** Workers finish in any order: saves of two different pages commute. */
  lemma SaveCommutes(store: Store, r1: Response, n1: int, r2: Response, n2: int)
    requires n1 != n2
    ensures Save(Save(store, r1, n1).store, r2, n2).store == Save(Save(store, r2, n2).store, r1, n1).store
  {
    ImageNameInjective(n1, n2);
  }

  datatype Option<T> = None | Some(value: T)

  /** The body the first successful response for page `num` carried, if any. */
  function FirstOk(events: seq<(Response, int)>, num: int): Option<Bytes> {
    if |events| == 0 then None
    else if events[0].0.status == StatusOk && events[0].1 == num then Some(events[0].0.content)
    else FirstOk(events[1..], num)
  }

  /** `events[i]` is a successful response for page `num`. */
  predicate OkFor(events: seq<(Response, int)>, i: nat, num: int)
    requires i < |events|
  {
    events[i].0.status == StatusOk && events[i].1 == num
  }

  /** `FirstOk` finds the earliest successful response for the page, and only misses when there is none. */
  lemma {:induction false} FirstOkSpec(events: seq<(Response, int)>, num: int)
    ensures FirstOk(events, num).None? <==> forall i :: 0 <= i < |events| ==> !OkFor(events, i, num)
    ensures FirstOk(events, num).Some? ==> exists i :: (0 <= i < |events| && OkFor(events, i, num)
      && FirstOk(events, num).value == events[i].0.content
      && forall j :: 0 <= j < i ==> !OkFor(events, j, num))
  {
    if |events| > 0 && !OkFor(events, 0, num) {
      var tail := events[1..];
      FirstOkSpec(tail, num);
      forall i | 1 <= i < |events| ensures OkFor(events, i, num) == OkFor(tail, i - 1, num) {
        assert events[i] == tail[i - 1];
      }
      if FirstOk(tail, num).Some? {
        var i :| 0 <= i < |tail| && OkFor(tail, i, num)
          && FirstOk(tail, num).value == tail[i].0.content
          && forall j :: 0 <= j < i ==> !OkFor(tail, j, num);
        assert OkFor(events, i + 1, num);
      }
    }
  }

  /** A run of `save` calls in the order the workers made them. */
  function SaveAll(store: Store, events: seq<(Response, int)>): (r: Saved)
    ensures forall k :: k in store ==> k in r.store && r.store[k] == store[k]
    decreases |events|
  {
    if |events| == 0 then Saved(store, false)
    else
      var first := Save(store, events[0].0, events[0].1);
      var rest := SaveAll(first.store, events[1..]);
      Saved(rest.store, first.closeRequested || rest.closeRequested)
  }

  /**
   First write wins: after a run of saves, the file of page `num` holds what was
   there before, or else the body of the first 200 response for `num`; it is
   missing only when neither exists.
   */
  lemma {:induction false} FirstWriteWins(store: Store, events: seq<(Response, int)>, num: int)
    ensures var r, name := SaveAll(store, events).store, ImageName(num);
      && (name in store ==> name in r && r[name] == store[name])
      && (name !in store ==> (name in r <==> FirstOk(events, num).Some?))
      && (name !in store && name in r ==> r[name] == FirstOk(events, num).value)
    decreases |events|
  {
    if |events| > 0 {
      var first := Save(store, events[0].0, events[0].1);
      FirstWriteWins(first.store, events[1..], num);
      ImageNameInjective(events[0].1, num);
    }
  }

  /** A terminal status was seen somewhere in the run exactly when close was requested. */
  lemma {:induction false} CloseRequestedIffTerminal(store: Store, events: seq<(Response, int)>)
    ensures SaveAll(store, events).closeRequested <==>
      exists i :: 0 <= i < |events| && events[i].0.status == StatusTerminal
    decreases |events|
  {
    if |events| > 0 {
      CloseRequestedIffTerminal(Save(store, events[0].0, events[0].1).store, events[1..]);
      if exists i :: 1 <= i < |events| && events[i].0.status == StatusTerminal {
        var i :| 1 <= i < |events| && events[i].0.status == StatusTerminal;
        assert events[1..][i - 1] == events[i];
      }
      if exists i :: 0 <= i < |events| - 1 && events[1..][i].0.status == StatusTerminal {
        var i :| 0 <= i < |events| - 1 && events[1..][i].0.status == StatusTerminal;
        assert events[1..][i] == events[i + 1];
      }
    }
  }

  /** The `.jpg` entries of a listing, in listing order. */
  function JpgNames(listing: seq<string>): (r: seq<string>)
    ensures |r| <= |listing|
    ensures forall x :: x in r <==> x in listing && IsJpg(x)
  {
    if |listing| == 0 then []
    else
      var last := listing[|listing| - 1];
      assert listing == listing[..|listing| - 1] + [last];
      JpgNames(listing[..|listing| - 1]) + (if IsJpg(last) then [last] else [])
  }

  /** No name occurs twice. */
  predicate Distinct(s: seq<string>) {
    forall i, j :: 0 <= i < j < |s| ==> s[i] != s[j]
  }

  /** `os.listdir` of the directory: every file once, in some order. */
  ghost predicate IsListing(listing: seq<string>, store: Store) {
    Distinct(listing) && (forall x :: x in listing <==> x in store)
  }

  lemma {:induction false} JpgNamesDistinct(listing: seq<string>)
    requires Distinct(listing)
    ensures Distinct(JpgNames(listing))
  {
    if |listing| > 0 {
      var init, last := listing[..|listing| - 1], listing[|listing| - 1];
      JpgNamesDistinct(init);
      assert last !in init;
      var r := JpgNames(listing);
      if IsJpg(last) {
        forall i, j | 0 <= i < j < |r| ensures r[i] != r[j] {
          if j == |r| - 1 {
            assert r[i] in JpgNames(init);
          }
        }
      }
    }
  }

  /**
   The page sequence of `create_pdf`: the `.jpg` entries of the listing sorted by
   `natural_sort_key`. Every `.jpg` entry becomes exactly as many pages as it
   occurs in the listing, and no page sorts strictly before an earlier one.
   */
  function Pages(listing: seq<string>): (r: seq<string>)
    ensures multiset(r) == multiset(JpgNames(listing))
    ensures |r| == |JpgNames(listing)|
    ensures SortedBy(r, Before)
    ensures forall x :: x in r <==> x in listing && IsJpg(x)
  {
    var r := SortByKey(JpgNames(listing));
    assert |r| == |multiset(r)| == |JpgNames(listing)|;
    assert forall x :: x in r <==> x in multiset(r);
    r
  }

  /** A permutation of distinct names is itself distinct. */
  lemma PermutationDistinct(a: seq<string>, b: seq<string>)
    requires multiset(a) == multiset(b) && Distinct(a)
    ensures Distinct(b)
  {
    forall i, j | 0 <= i < j < |b| ensures b[i] != b[j] {
      if b[i] == b[j] {
        assert b == b[..i] + [b[i]] + b[i + 1..j] + [b[j]] + b[j + 1..];
        assert multiset(b)[b[i]] >= 2;
        MultiplicityOne(a, b[i]);
      }
    }
  }

  lemma {:induction false} MultiplicityOne(a: seq<string>, x: string)
    requires Distinct(a)
    ensures multiset(a)[x] <= 1
  {
    if |a| > 0 {
      var init := a[..|a| - 1];
      assert a == init + [a[|a| - 1]];
      MultiplicityOne(init, x);
      if a[|a| - 1] == x {
        assert x !in init;
      }
    }
  }

  /** On a directory listing, the pages are the directory's `.jpg` files, each exactly once. */
  lemma PagesOfStore(listing: seq<string>, store: Store)
    requires IsListing(listing, store)
    ensures Distinct(Pages(listing))
    ensures forall x :: x in Pages(listing) <==> x in store && IsJpg(x)
  {
    JpgNamesDistinct(listing);
    PermutationDistinct(JpgNames(listing), Pages(listing));
  }

  /** `img{n}.jpg` is a `.jpg` name. */
  lemma ImageNameIsJpg(num: int)
    ensures IsJpg(ImageName(num))
  {
    var s := ImageName(num);
    var l := Lower(s);
    assert s[|s| - 4..] == ".jpg";
    assert l[|l| - 4..] == ".jpg" by {
      forall k | 0 <= k < 4 ensures l[|l| - 4 + k] == ".jpg"[k] {
        assert s[|s| - 4 + k] == ".jpg"[k];
      }
    }
  }


  lemma LowerAscii()
    ensures Lower("img") == "img" && Lower("img-") == "img-" && Lower(".jpg") == ".jpg"
  {
  }

  /** The text in front of the digits of `img{num}.jpg`: a minus sign is not a digit. */
  function ImagePrefix(num: int): string {
    if num >= 0 then "img" else "img-"
  }

  function Abs(num: int): nat {
    if num >= 0 then num else -num
  }

  lemma ImageSplit(num: int)
    ensures Split(ImageName(num)) == Run(ImagePrefix(num), NatToString(Abs(num)), Last(".jpg"))
  {
    ImagePieces(num);
    SplitUnique(Run(ImagePrefix(num), NatToString(Abs(num)), Last(".jpg")), ImageName(num));
  }

  /** `img{num}.jpg` as alternating pieces: a prefix without digits, the digits, `.jpg`. */
  lemma ImagePieces(num: int)
    ensures Flatten(Run(ImagePrefix(num), NatToString(Abs(num)), Last(".jpg"))) == ImageName(num)
    ensures Valid(Run(ImagePrefix(num), NatToString(Abs(num)), Last(".jpg")), true)
  {
    assert NoDigits(ImagePrefix(num)) && NoDigits(".jpg");
  }

  /**
   The key of `img{n}.jpg`: the text "img", the page number, and ".jpg". A
   negative page number's sign is not a digit, so it stays with the text.
   */
  lemma ImageKey(num: int)
    ensures num >= 0 ==> Key(ImageName(num)) == [Text("img"), Num(num), Text(".jpg")]
    ensures num < 0 ==> Key(ImageName(num)) == [Text("img-"), Num(-num), Text(".jpg")]
    ensures Key(ImageName(num)) == [Text(ImagePrefix(num)), Num(Abs(num)), Text(".jpg")]
  {
    var t, d := ImagePrefix(num), NatToString(Abs(num));
    ImageSplit(num);
    NatToStringRoundTrip(Abs(num));
    ImageTokens(t, d);
    LowerAscii();
  }

  lemma ImageTokens(t: string, d: string)
    requires NoDigits(t) && IsDigits(d)
    ensures KeyOf(Run(t, d, Last(".jpg"))) == [Text(Lower(t)), Num(DigitsValue(d)), Text(Lower(".jpg"))]
  {
    if |t| > 0 {
      assert !IsDigit(t[0]);
    }
    assert !IsDigit(".jpg"[0]);
  }

  /** Keys that differ only in the middle number compare as the numbers do. */
  lemma MiddleDecides(a: string, x: nat, y: nat, b: string)
    ensures KeyLess([Text(a), Num(x), Text(b)], [Text(a), Num(y), Text(b)]) == Returned(x < y)
  {
    var k, l := [Text(a), Num(x), Text(b)], [Text(a), Num(y), Text(b)];
    assert k[1..] == [Num(x), Text(b)] && l[1..] == [Num(y), Text(b)];
    if x == y {
      KeyLessIrreflexive(k);
    }
  }

  /**
   Pages with non-negative numbers sort by number, not by text: `img2.jpg`
   comes before `img10.jpg`.
   */
  lemma ImageOrder(n: nat, m: nat)
    ensures Before(ImageName(n), ImageName(m)) <==> n < m
  {
    ImageKey(n);
    ImageKey(m);
    MiddleDecides("img", n, m, ".jpg");
  }

  /**
   The minus sign of a negative page number is text, and "img" is a prefix of
   "img-": every non-negative page sorts before every negative one.
   */
  lemma NegativePagesLast(n: nat, m: int)
    requires m < 0
    ensures Before(ImageName(n), ImageName(m)) && !Before(ImageName(m), ImageName(n))
  {
    ImageKey(n);
    ImageKey(m);
    assert StrLess("img", "img-") && !StrLess("img-", "img");
  }

  /** Among negative page numbers the order is by magnitude, so `img-2.jpg` comes before `img-10.jpg`. */
  lemma NegativePagesByMagnitude(n: int, m: int)
    requires n < 0 && m < 0
    ensures Before(ImageName(n), ImageName(m)) <==> m < n
  {
    ImageKey(n);
    ImageKey(m);
    assert ImagePrefix(n) == ImagePrefix(m) == "img-";
    MiddleDecides("img-", Abs(n), Abs(m), ".jpg");
  }

  /** Plain string order is decided by the first position where the strings differ. */
  lemma {:induction false} StrLessAfterPrefix(p: string, a: string, b: string)
    requires |a| > 0 && |b| > 0 && a[0] < b[0]
    ensures StrLess(p + a, p + b)
  {
    if |p| > 0 {
      assert (p + a)[1..] == p[1..] + a && (p + b)[1..] == p[1..] + b;
      StrLessAfterPrefix(p[1..], a, b);
    } else {
      assert p + a == a && p + b == b;
    }
  }

  /**
   The natural order differs from the plain string order: a one-digit page from
   2 to 9 sorts before a page from 10 to 19, while plain string order puts the
   two-digit page first, as with `img2.jpg` and `img10.jpg`.
   */
  lemma NaturalBeforePlain(n: nat, m: nat)
    requires 2 <= n <= 9 && 10 <= m <= 19
    ensures Before(ImageName(n), ImageName(m))
    ensures StrLess(ImageName(m), ImageName(n))
  {
    ImageOrder(n, m);
    PlainOrder(n, m);
  }

  lemma PlainOrder(n: nat, m: nat)
    requires 2 <= n <= 9 && 10 <= m <= 19
    ensures StrLess(ImageName(m), ImageName(n))
  {
    var c := DigitChar(m % 10);
    TeenText(m);
    assert ImageName(m) == "img" + (['1', c] + ".jpg");
    assert ImageName(n) == "img" + ([DigitChar(n)] + ".jpg");
    StrLessAfterPrefix("img", ['1', c] + ".jpg", [DigitChar(n)] + ".jpg");
  }

  /** The decimal text of a number from 10 to 19 starts with the digit 1. */
  lemma TeenText(m: nat)
    requires 10 <= m <= 19
    ensures NatToString(m) == ['1', DigitChar(m % 10)]
  {
    assert m / 10 == 1;
    assert NatToString(1) == ['1'];
  }

  /**
   Sorted pages named after distinct non-negative page numbers come in strictly
   ascending page order.
   */
  lemma PagesAscending(pages: seq<string>, nums: seq<nat>)
    requires |pages| == |nums| && SortedBy(pages, Before) && Distinct(pages)
    requires forall i :: 0 <= i < |pages| ==> pages[i] == ImageName(nums[i])
    ensures forall i, j :: 0 <= i < j < |nums| ==> nums[i] < nums[j]
  {
    forall i, j | 0 <= i < j < |nums| ensures nums[i] < nums[j] {
      ImageOrder(nums[j], nums[i]);
      ImageNameInjective(nums[i], nums[j]);
    }
  }

  /** The entries of `store` that are not `.jpg` files. */
  function NonJpg(store: Store): (r: Store)
    ensures forall k :: k in r <==> k in store && !IsJpg(k)
    ensures forall k :: k in r ==> r[k] == store[k]
  {
    map k | k in store && !IsJpg(k) :: store[k]
  }

  /**
   `Main.clean_up`: removes every listed `.jpg` file. Removing a name that is no
   longer there raises, and the `try` around the comprehension then abandons the
   rest of the listing (`ok` is false).
   */
  method CleanUp(store: Store, listing: seq<string>) returns (r: Store, ok: bool)
    ensures forall k :: k in r ==> k in store && r[k] == store[k]
    ensures forall k :: k in store && !IsJpg(k) ==> k in r
    ensures ok ==> forall k :: k in listing && IsJpg(k) ==> k !in r
    ensures IsListing(listing, store) ==> ok && r == NonJpg(store)
  {
    r, ok := store, true;
    var i := 0;
    while i < |listing|
      invariant 0 <= i <= |listing|
      invariant forall k :: k in r ==> k in store && r[k] == store[k]
      invariant forall k :: k in store && !IsJpg(k) ==> k in r
      invariant ok ==> forall j :: 0 <= j < i && IsJpg(listing[j]) ==> listing[j] !in r
      invariant IsListing(listing, store) ==> ok
      invariant IsListing(listing, store) ==> forall j :: i <= j < |listing| ==> listing[j] in r
    {
      var name := listing[i];
      if IsJpg(name) {
        if name !in r {
          ok := false;
          return;
        }
        r := r - {name};
      }
      i := i + 1;
    }
    if IsListing(listing, store) {
      assert forall k :: k in r <==> k in store && !IsJpg(k) by {
        forall k | k in store && IsJpg(k) ensures k !in r {
          var j :| 0 <= j < |listing| && listing[j] == k;
        }
      }
    }
  }

  /** A cleaned directory has nothing left to clean. */
  lemma CleanUpIdempotent(store: Store)
    ensures NonJpg(NonJpg(store)) == NonJpg(store)
  {
  }

  /** Cleaning up after a save of a page is cleaning up before it: saves only touch `.jpg` files. */
  lemma CleanUpAfterSave(store: Store, resp: Response, num: int)
    ensures NonJpg(Save(store, resp, num).store) == NonJpg(store)
  {
    ImageNameIsJpg(num);
  }
}
