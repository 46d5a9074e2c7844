/**
 * The frame lists of the GIF animator (class FrameAnimator): the ".jpg" names of a
 * directory listing, split into the frames to keep and, when odd frames are removed,
 * the frames whose eighth character is an odd digit; both lists are sorted.
 */
module FrameLists {
  import opened Outcomes
  import opened Decimal
  import opened StringOrder

  /** `sub in s` for strings: sub occurs in s at some position. */
  predicate HasSubstring(s: string, sub: string)
    decreases |s|
  {
    |sub| <= |s| && (s[..|sub|] == sub || (|s| > 0 && HasSubstring(s[1..], sub)))
  }

  /** sub occurs in s starting at index i. */
  predicate OccursAt(s: string, sub: string, i: int) {
    0 <= i && i + |sub| <= |s| && s[i..i + |sub|] == sub
  }

  /** HasSubstring holds exactly when sub occurs at some index of s. */
  lemma {:induction false} HasSubstringAt(s: string, sub: string)
    ensures HasSubstring(s, sub) <==> exists i :: OccursAt(s, sub, i)
    decreases |s|
  {
    if |sub| <= |s| {
      if s[..|sub|] == sub {
        assert OccursAt(s, sub, 0);
      } else if |s| > 0 {
        HasSubstringAt(s[1..], sub);
        if HasSubstring(s[1..], sub) {
          var i :| OccursAt(s[1..], sub, i);
          assert s[i + 1..i + 1 + |sub|] == s[1..][i..i + |sub|];
          assert OccursAt(s, sub, i + 1);
        }
        if exists i :: OccursAt(s, sub, i) {
          var i :| OccursAt(s, sub, i);
          assert i != 0;
          assert s[1..][i - 1..i - 1 + |sub|] == s[i..i + |sub|];
          assert OccursAt(s[1..], sub, i - 1);
        }
      }
    }
  }

  /** The names the animator picks up: those containing ".jpg" anywhere. */
  predicate IsJpg(name: string) {
    HasSubstring(name, ".jpg")
  }

  /** What `create_lists` can raise, and the empty-frames error of the constructor. */
  datatype FrameError = IndexOutOfRange(name: string) | NotADigit(name: string) | NoFrames

  /** Where one name of the listing goes. */
  datatype Placement = Skip | Keep | Remove | Raise(error: FrameError)

  /**
   * One name: skipped unless it contains ".jpg"; kept unless odd frames are removed;
   * otherwise its eighth character must exist and be a digit, and an odd digit
   * removes the frame.
   */
  function Place(name: string, removeOdd: bool): (r: Placement)
    ensures r == Skip <==> !IsJpg(name)
    ensures !removeOdd && IsJpg(name) ==> r == Keep
    ensures r.Raise? ==> r.error != NoFrames && r.error.name == name
  {
    if !IsJpg(name) then Skip
    else if !removeOdd then Keep
    else if |name| < 8 then Raise(IndexOutOfRange(name))
    else if !IsDigit(name[7]) then Raise(NotADigit(name))
    else if DigitValue(name[7]) % 2 == 1 then Remove
    else Keep
  }

  /** The two lists: frames to animate, frames to delete. */
  datatype Lists = Lists(frames: seq<string>, removed: seq<string>)

  /** The two lists in listing order as the loop builds them, or the first name that raises. */
  function Scan(listing: seq<string>, removeOdd: bool): (r: Result<Lists, FrameError>)
    ensures r.Success? ==> |r.value.frames| + |r.value.removed| <= |listing|
    ensures r.Failure? ==> r.error != NoFrames && r.error.name in listing
    decreases |listing|
  {
    if listing == [] then Success(Lists([], []))
    else
      var before := Scan(listing[..|listing| - 1], removeOdd);
      var name := listing[|listing| - 1];
      if before.Failure? then before
      else
        match Place(name, removeOdd)
        case Skip => before
        case Keep => Success(Lists(before.value.frames + [name], before.value.removed))
        case Remove => Success(Lists(before.value.frames, before.value.removed + [name]))
        case Raise(e) => Failure(e)
  }

  /** The result of `create_lists`: the scanned lists, each sorted. */
  function SortedLists(listing: seq<string>, removeOdd: bool): Result<Lists, FrameError> {
    var s := Scan(listing, removeOdd);
    if s.Failure? then Failure(s.error) else Success(Lists(Sort(s.value.frames), Sort(s.value.removed)))
  }

  /** The ".jpg" names of a listing, in order. */
  function JpgNames(listing: seq<string>): seq<string>
    decreases |listing|
  {
    if listing == [] then []
    else JpgNames(listing[..|listing| - 1]) + (if IsJpg(listing[|listing| - 1]) then [listing[|listing| - 1]] else [])
  }

  /** On success the kept and the removed names together are exactly the ".jpg" names. */
  lemma {:induction false} ScanPartition(listing: seq<string>, removeOdd: bool)
    requires Scan(listing, removeOdd).Success?
    ensures var l := Scan(listing, removeOdd).value;
            multiset(l.frames) + multiset(l.removed) == multiset(JpgNames(listing))
    decreases |listing|
  {
    if listing != [] {
      var init, name := listing[..|listing| - 1], listing[|listing| - 1];
      ScanPartition(init, removeOdd);
      if IsJpg(name) {
        assert JpgNames(listing) == JpgNames(init) + [name];
        assert Place(name, removeOdd) == Keep || Place(name, removeOdd) == Remove;
      } else {
        assert JpgNames(listing) == JpgNames(init) + [];
        assert Scan(listing, removeOdd) == Scan(init, removeOdd);
      }
    }
  }

  /** On success a kept name has placement Keep, a removed one Remove, and both come from the listing. */
  lemma {:induction false} ScanPlacements(listing: seq<string>, removeOdd: bool)
    requires Scan(listing, removeOdd).Success?
    ensures var l := Scan(listing, removeOdd).value;
            && (forall x :: x in l.frames ==> x in listing && Place(x, removeOdd) == Keep)
            && (forall x :: x in l.removed ==> x in listing && Place(x, removeOdd) == Remove)
    decreases |listing|
  {
    if listing != [] {
      var init := listing[..|listing| - 1];
      ScanPlacements(init, removeOdd);
      assert forall x :: x in init ==> x in listing;
    }
  }

  /** On success a name of the listing is kept or removed exactly as its own placement says. */
  lemma EveryNamePlaced(listing: seq<string>, removeOdd: bool, x: string)
    requires Scan(listing, removeOdd).Success? && x in listing
    ensures var l := Scan(listing, removeOdd).value;
            && (x in l.frames <==> Place(x, removeOdd) == Keep)
            && (x in l.removed <==> Place(x, removeOdd) == Remove)
            && (!IsJpg(x) ==> x !in l.frames && x !in l.removed)
  {
    var l := Scan(listing, removeOdd).value;
    ScanPartition(listing, removeOdd);
    ScanPlacements(listing, removeOdd);
    JpgNamesMembers(listing, x);
    if IsJpg(x) {
      assert x in multiset(JpgNames(listing));
      assert x in multiset(l.frames) || x in multiset(l.removed);
    }
  }

  /** The ".jpg" names are exactly the names of the listing that contain ".jpg". */
  lemma {:induction false} JpgNamesMembers(listing: seq<string>, x: string)
    ensures x in JpgNames(listing) <==> x in listing && IsJpg(x)
    decreases |listing|
  {
    if listing != [] {
      var init := listing[..|listing| - 1];
      JpgNamesMembers(init, x);
      assert listing == init + [listing[|listing| - 1]];
    }
  }

  /** Without odd-frame removal nothing raises, nothing is removed and every ".jpg" name is a frame. */
  lemma {:induction false} KeepAllFrames(listing: seq<string>)
    ensures Scan(listing, false) == Success(Lists(JpgNames(listing), []))
    decreases |listing|
  {
    if listing != [] {
      var init, name := listing[..|listing| - 1], listing[|listing| - 1];
      KeepAllFrames(init);
      if IsJpg(name) {
        assert Place(name, false) == Keep;
      } else {
        assert Place(name, false) == Skip;
        assert Scan(listing, false) == Scan(init, false);
        assert JpgNames(listing) == JpgNames(init) + [] == JpgNames(init);
      }
    }
  }

  /**
   * The scan fails exactly when some name raises, and then with the error of the first
   * such name.
   */
  lemma {:induction false} ScanFailure(listing: seq<string>, removeOdd: bool)
    ensures Scan(listing, removeOdd).Failure? <==> exists i :: 0 <= i < |listing| && Place(listing[i], removeOdd).Raise?
    ensures Scan(listing, removeOdd).Failure? ==>
              exists k :: 0 <= k < |listing| && Place(listing[k], removeOdd) == Raise(Scan(listing, removeOdd).error)
                          && forall i :: 0 <= i < k ==> !Place(listing[i], removeOdd).Raise?
    decreases |listing|
  {
    if listing != [] {
      var init := listing[..|listing| - 1];
      ScanFailure(init, removeOdd);
      assert forall i :: 0 <= i < |init| ==> init[i] == listing[i];
      if Scan(init, removeOdd).Failure? {
        var k :| 0 <= k < |init| && Place(init[k], removeOdd) == Raise(Scan(init, removeOdd).error)
                 && forall i :: 0 <= i < k ==> !Place(init[i], removeOdd).Raise?;
        assert Place(listing[k], removeOdd) == Raise(Scan(listing, removeOdd).error);
      } else if Place(listing[|listing| - 1], removeOdd).Raise? {
        assert Place(listing[|listing| - 1], removeOdd) == Raise(Scan(listing, removeOdd).error);
      }
    }
  }

  /**
   * With odd-frame removal a ".jpg" name raises exactly when it is shorter than eight
   * characters or its eighth character is not a digit.
   */
  lemma RaisesOnBadFrameNumber(name: string)
    ensures Place(name, true).Raise? <==> IsJpg(name) && (|name| < 8 || !IsDigit(name[7]))
    ensures Place(name, true) == Remove <==> IsJpg(name) && |name| >= 8 && IsDigit(name[7]) && DigitValue(name[7]) % 2 == 1
  {
  }

  /**
   * create_lists: walks the listing, filing each ".jpg" name, then sorts both lists.
   * A name that raises ends the walk with its error.
   */
  method CreateLists(listing: seq<string>, removeOdd: bool) returns (r: Result<Lists, FrameError>)
    ensures r == SortedLists(listing, removeOdd)
    ensures r.Success? ==> IsSorted(r.value.frames) && IsSorted(r.value.removed)
  {
    var frameList: seq<string> := [];
    var removeList: seq<string> := [];
    var i := 0;
    while i < |listing|
      invariant 0 <= i <= |listing|
      invariant Scan(listing[..i], removeOdd) == Success(Lists(frameList, removeList))
    {
      var file := listing[i];
      assert listing[..i + 1][..i] == listing[..i];
      if HasSubstring(file, ".jpg") {
        if removeOdd {
          if |file| < 8 {
            ScanStops(listing, i, removeOdd);
            return Failure(IndexOutOfRange(file));
          }
          if !IsDigit(file[7]) {
            ScanStops(listing, i, removeOdd);
            return Failure(NotADigit(file));
          }
        }
        if removeOdd && DigitValue(file[7]) % 2 == 1 {
          removeList := removeList + [file];
        } else {
          frameList := frameList + [file];
        }
      }
      i := i + 1;
    }
    assert listing[..|listing|] == listing;
    return Success(Lists(Sort(frameList), Sort(removeList)));
  }

  /** Once a prefix of the listing fails, the whole scan fails with the same error. */
  lemma {:induction false} ScanStops(listing: seq<string>, i: int, removeOdd: bool)
    requires 0 <= i < |listing| && Scan(listing[..i], removeOdd).Success?
    requires Place(listing[i], removeOdd).Raise?
    ensures Scan(listing, removeOdd) == Failure(Place(listing[i], removeOdd).error)
    decreases |listing| - i
  {
    assert listing[..i + 1][..i] == listing[..i];
    if i + 1 < |listing| {
      FailureExtends(listing, i + 1, removeOdd);
    } else {
      assert listing[..i + 1] == listing;
    }
  }

  /** A failed prefix stays failed, with the same error, however the listing goes on. */
  lemma {:induction false} FailureExtends(listing: seq<string>, j: int, removeOdd: bool)
    requires 0 <= j <= |listing| && Scan(listing[..j], removeOdd).Failure?
    ensures Scan(listing, removeOdd) == Scan(listing[..j], removeOdd)
    decreases |listing| - j
  {
    if j < |listing| {
      assert listing[..j + 1][..j] == listing[..j];
      FailureExtends(listing, j + 1, removeOdd);
    } else {
      assert listing[..j] == listing;
    }
  }

  /** The animator's state once its constructor has returned. */
  class FrameAnimator {
    const removeOdd: bool
    var frameList: seq<string>
    var removeList: seq<string>

    constructor (removeOdd: bool, lists: Lists)
      requires |lists.frames| > 0
      ensures this.removeOdd == removeOdd
      ensures frameList == lists.frames && removeList == lists.removed
    {
      this.removeOdd := removeOdd;
      frameList := lists.frames;
      removeList := lists.removed;
    }
  }

  /** The constructor: builds the lists and raises when there is no frame to animate. */
  method NewFrameAnimator(listing: seq<string>, removeOdd: bool) returns (r: Result<FrameAnimator, FrameError>)
    ensures r.Success? <==> SortedLists(listing, removeOdd).Success? && SortedLists(listing, removeOdd).value.frames != []
    ensures SortedLists(listing, removeOdd).Failure? ==> r == Failure(SortedLists(listing, removeOdd).error)
    ensures SortedLists(listing, removeOdd).Success? && SortedLists(listing, removeOdd).value.frames == [] ==>
              r == Failure(NoFrames)
    ensures r.Success? ==>
              && fresh(r.value) && r.value.removeOdd == removeOdd
              && Success(Lists(r.value.frameList, r.value.removeList)) == SortedLists(listing, removeOdd)
              && |r.value.frameList| > 0
  {
    var lists := CreateLists(listing, removeOdd);
    if lists.Failure? {
      return Failure(lists.error);
    }
    if |lists.value.frames| <= 0 {
      return Failure(NoFrames);
    }
    var animator := new FrameAnimator(removeOdd, lists.value);
    return Success(animator);
  }
}
