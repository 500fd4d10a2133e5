/** Following a chain of symbolic links from $0, by way of the text that ls prints. */
module LinkResolution {

  // ----------------------------------------------------------------- splitting a path

  function LastSlash(path: string): (i: int)
    ensures -1 <= i < |path|
    ensures i >= 0 ==> path[i] == '/'
    ensures forall j :: i < j < |path| ==> path[j] != '/'
  {
    if path == "" then -1
    else if path[|path| - 1] == '/' then |path| - 1
    else LastSlash(path[..|path| - 1])
  }

  /** What follows the last slash. */
  function LastComponent(path: string): string {
    path[LastSlash(path) + 1..]
  }

  /** The path without that suffix, if it has it. */
  function RemoveSuffix(path: string, suffix: string): string {
    if |suffix| <= |path| && path[|path| - |suffix|..] == suffix then path[..|path| - |suffix|] else path
  }

  /** The directory part, with its trailing slash. */
  function HomeOf(path: string): string {
    RemoveSuffix(path, LastComponent(path))
  }

  /** A path is its directory part followed by a last component without slashes. */
  lemma HomeSplitsPath(path: string)
    ensures HomeOf(path) + LastComponent(path) == path
    ensures '/' !in LastComponent(path)
    ensures HomeOf(path) == "" || HomeOf(path)[|HomeOf(path)| - 1] == '/'
  {
  }

  /** There is only one such split. */
  lemma HomeIsUnique(path: string, home: string, last: string)
    requires path == home + last && '/' !in last
    requires home == "" || home[|home| - 1] == '/'
    ensures home == HomeOf(path) && last == LastComponent(path)
  {
    var n, m := |home|, |HomeOf(path)|;
    HomeSplitsPath(path);
    assert n > 0 ==> path[n - 1] == '/';
    assert m > 0 ==> path[m - 1] == '/';
    assert forall j :: n <= j < |path| ==> path[j] in last;
    assert forall j :: m <= j < |path| ==> path[j] in LastComponent(path);
    assert n == m;
    assert path[..n] == home && path[n..] == last;
  }

  // ------------------------------------------------------------------ what ls prints

  const ARROW := " -> "

  predicate ArrowAt(text: string, i: nat) {
    i + |ARROW| <= |text| && text[i..i + |ARROW|] == ARROW
  }

  /** The first place of an arrow, or the length of the text. */
  function FindArrow(text: string, from: nat): (i: nat)
    requires from <= |text|
    ensures from <= i <= |text|
    ensures i < |text| ==> ArrowAt(text, i)
    ensures forall j: nat :: from <= j < i ==> !ArrowAt(text, j)
    decreases |text| - from
  {
    if from == |text| || ArrowAt(text, from) then from else FindArrow(text, from + 1)
  }

  /** What follows the first arrow, or the whole text. */
  function AfterArrow(text: string): string {
    var i := FindArrow(text, 0);
    if i < |text| then text[i + |ARROW|..] else text
  }

  /** Command substitution drops the newlines at the end. */
  function DropFinalNewlines(text: string): string {
    if text != "" && text[|text| - 1] == '\n' then DropFinalNewlines(text[..|text| - 1]) else text
  }

  predicate EndsLine(text: string) {
    text != "" && text[|text| - 1] == '\n'
  }

  /** The link target read back from a line of `ls -ld`: details and path, an arrow, the target. */
  function ReadTarget(details: string, path: string, target: string): string {
    AfterArrow(DropFinalNewlines(details + path + ARROW + target + "\n"))
  }

  /** No arrow in the text, nor one that the arrow after it would complete. */
  predicate ArrowFree(text: string) {
    && (forall i: nat :: i < |text| ==> !ArrowAt(text, i))
    && !(|text| >= 3 && text[|text| - 3..] == " ->")
  }

  /** The first arrow of a printed line is the real one exactly when the text before it is arrow-free. */
  lemma FirstArrow(head: string, tail: string)
    ensures FindArrow(head + ARROW + tail, 0) == |head| <==> ArrowFree(head)
    ensures FindArrow(head + ARROW + tail, 0) <= |head|
  {
    var text := head + ARROW + tail;
    assert ArrowAt(text, |head|);
    var n := |head|;
    if ArrowFree(head) {
      forall i: nat | i < n ensures !ArrowAt(text, i) {
        if i + 4 <= n {
          assert text[i..i + 4] == head[i..i + 4];
          assert !ArrowAt(head, i);
        } else if i + 3 == n {
          assert text[i..i + 4][..3] == head[n - 3..];
        } else {
          assert text[n] == ' ' && text[n + 1] == '-';
          assert text[i..i + 4][n - i] == ' ';
          assert text[i..i + 4][n - i + 1] == '-';
        }
      }
    } else if exists i: nat :: i < n && ArrowAt(head, i) {
      var i: nat :| i < n && ArrowAt(head, i);
      assert text[i..i + 4] == head[i..i + 4];
      assert ArrowAt(text, i);
    } else {
      assert text[n - 3..n + 1] == head[n - 3..] + " ";
      assert ArrowAt(text, n - 3);
    }
  }

  lemma {:induction false} FinalNewlinesDropped(head: string, tail: string)
    requires head != "" && !EndsLine(head)
    ensures DropFinalNewlines(head + tail) == head + DropFinalNewlines(tail)
    ensures !EndsLine(DropFinalNewlines(tail)) && |DropFinalNewlines(tail)| <= |tail|
    decreases |tail|
  {
    if tail == "" {
      assert head + tail == head;
    } else if EndsLine(tail) {
      assert (head + tail)[..|head + tail| - 1] == head + tail[..|tail| - 1];
      FinalNewlinesDropped(head, tail[..|tail| - 1]);
    }
  }

  lemma AfterArrowOfLine(head: string, tail: string) returns (front: string)
    ensures ArrowFree(head) ==> AfterArrow(head + ARROW + tail) == tail
    ensures !ArrowFree(head) ==> AfterArrow(head + ARROW + tail) == front + "-> " + tail
  {
    var text, n := head + ARROW + tail, |head|;
    FirstArrow(head, tail);
    var i := FindArrow(text, 0);
    if i == n {
      assert text[n + |ARROW|..] == tail;
      front := "";
    } else {
      assert ArrowAt(text, n);
      ArrowsShareABlank(text, i, n);
      front := text[i + |ARROW|..n + 1];
      assert text[n + 1..] == "-> " + tail;
      assert text[i + |ARROW|..] == front + text[n + 1..];
    }
  }

  lemma TargetKept(details: string, path: string, target: string)
    ensures ReadTarget(details, path, target) == AfterArrow(details + path + ARROW + DropFinalNewlines(target))
  {
    var head := details + path + ARROW;
    assert head + target + "\n" == head + (target + "\n");
    FinalNewlinesDropped(head, target + "\n");
    assert (target + "\n")[..|target|] == target;
  }

  /** The script reads the target exactly when details and path are arrow-free and the target does not end in a newline. */
  lemma TargetReadExactly(details: string, path: string, target: string) returns (front: string)
    ensures ReadTarget(details, path, target) == target
            <==> ArrowFree(details + path) && !EndsLine(target)
    ensures ArrowFree(details + path) ==> ReadTarget(details, path, target) == DropFinalNewlines(target)
    ensures !ArrowFree(details + path) ==> ReadTarget(details, path, target) == front + "-> " + DropFinalNewlines(target)
  {
    TargetKept(details, path, target);
    front := AfterArrowOfLine(details + path, DropFinalNewlines(target));
    FinalNewlinesDropped("x", target);
    if EndsLine(target) {
      var read := ReadTarget(details, path, target);
      assert !EndsLine(read);
    }
  }

  /** A path that ends in the beginning of an arrow is enough to misread the target. */
  lemma ArrowLikePathIsMisread()
    ensures ReadTarget("l ", "a ->", "b") == "-> b"
  {
    TargetKept("l ", "a ->", "b");
    var text := "l " + "a ->" + ARROW + "b";
    assert text == "l a -> -> b";
    assert text[3..7] == ARROW && text[7..] == "-> b";
    assert text[0] == 'l' && text[2] == 'a';
    NoArrowBefore3(text);
  }

  lemma NoArrowBefore3(text: string)
    requires ArrowAt(text, 3) && text[0] != ' ' && text[2] != ' ' && text[2] != '-'
    ensures FindArrow(text, 0) == 3
  {
    forall j: nat | j < 3 ensures !ArrowAt(text, j) {
      assert j + 4 <= |text| && text[j..j + 4][0] == text[j] && text[j..j + 4][1] == text[j + 1];
    }
  }

  lemma ArrowsShareABlank(text: string, i: nat, j: nat)
    requires i < j && ArrowAt(text, i) && ArrowAt(text, j)
    ensures i + 3 <= j
  {
    assert text[i + 1] == text[i..i + 4][1] == '-';
    assert text[i + 2] == text[i..i + 4][2] == '>';
    assert text[j] == text[j..j + 4][0] == ' ';
  }

  // ------------------------------------------------------------------ the chain of links

  /** The symbolic links by path, and what ls prints before a path. */
  datatype Files = Files(links: map<string, string>, details: string -> string)

  predicate IsAbsolute(path: string) {
    path != "" && path[0] == '/'
  }

  /** The target of a link seen from the directory the link is in. */
  function Resolve(path: string, target: string): string {
    if IsAbsolute(target) then target else HomeOf(path) + target
  }

  lemma HomeOfJoined(dir: string, target: string)
    requires dir == "" || dir[|dir| - 1] == '/'
    ensures HomeOf(dir + target) == dir + HomeOf(target) && LastComponent(dir + target) == LastComponent(target)
  {
    HomeSplitsPath(target);
    hide HomeOf, LastComponent;
    var home, last := HomeOf(target), LastComponent(target);
    var joined := dir + home;
    assert dir + target == joined + last;
    if home == "" {
      assert joined == dir;
    } else {
      assert joined[|joined| - 1] == home[|home| - 1];
    }
    HomeIsUnique(dir + target, joined, last);
  }

  lemma HomeOfAbsolute(target: string)
    ensures IsAbsolute(HomeOf(target)) <==> IsAbsolute(target)
  {
    HomeSplitsPath(target);
    hide HomeOf, LastComponent;
    var home, last := HomeOf(target), LastComponent(target);
    if home == "" {
      assert target == last;
      assert target != "" ==> target[0] in last;
    } else {
      assert target[0] == home[0];
    }
  }

  /** The resolved path has the target's last component, in the target's directory; for a relative target that is below the link's. */
  lemma ResolvedPathSplits(path: string, target: string)
    ensures LastComponent(Resolve(path, target)) == LastComponent(target)
    ensures HomeOf(Resolve(path, target)) == (if "/" <= target then "" else HomeOf(path)) + HomeOf(target)
  {
    HomeOfAbsolute(target);
    HomeSplitsPath(path);
    HomeOfJoined(HomeOf(path), target);
    hide HomeOf, LastComponent;
    assert "" + HomeOf(target) == HomeOf(target);
  }

  /** The path the script goes on with after a link. */
  function NextPath(files: Files, path: string): string
    requires path in files.links
  {
    Resolve(path, ReadTarget(files.details(path), path, files.links[path]))
  }

  /** app_path after k turns of the loop; it stays once it is no link. */
  function PathAfter(files: Files, start: string, k: nat): string {
    if k == 0 then start
    else
      var path := PathAfter(files, start, k - 1);
      if path in files.links then NextPath(files, path) else path
  }

  lemma NoTurnYet(files: Files, start: string)
    ensures PathAfter(files, start, 0) == start
  {
  }

  lemma OneMoreTurn(files: Files, start: string, k: nat)
    requires PathAfter(files, start, k) in files.links
    ensures PathAfter(files, start, k + 1) == NextPath(files, PathAfter(files, start, k))
  {
  }

  class Location {
    var appPath: string
    var appHome: string

    constructor (arg0: string)
      ensures appPath == arg0
    {
      appPath, appHome := arg0, "";
    }

    /** The loop over links; a chain may be endless, so at most `fuel` turns are taken. */
    method FollowLinks(files: Files, fuel: nat) returns (halted: bool)
      modifies this
      ensures appPath == PathAfter(files, old(appPath), fuel)
      ensures appHome == HomeOf(appPath)
      ensures halted <==> appPath !in files.links
    {
      hide ReadTarget, LastComponent, RemoveSuffix, PathAfter;
      NoTurnYet(files, appPath);
      var turns := 0;
      appHome := RemoveSuffix(appPath, LastComponent(appPath));
      while appPath in files.links && turns < fuel
        invariant turns <= fuel
        invariant appPath == PathAfter(files, old(appPath), turns)
        invariant appHome == HomeOf(appPath)
      {
        OneMoreTurn(files, old(appPath), turns);
        var link := ReadTarget(files.details(appPath), appPath, files.links[appPath]);
        if IsAbsolute(link) {
          appPath := link;
        } else {
          appPath := appHome + link;
        }
        appHome := RemoveSuffix(appPath, LastComponent(appPath));
        turns := turns + 1;
      }
      halted := appPath !in files.links;
      PathStays(files, old(appPath), turns, fuel);
    }
  }

  lemma {:induction false} PathStays(files: Files, start: string, k: nat, n: nat)
    requires k <= n && (k == n || PathAfter(files, start, k) !in files.links)
    ensures PathAfter(files, start, n) == PathAfter(files, start, k)
  {
    if k < n {
      PathStays(files, start, k, n - 1);
    }
  }

  /** A turn resolves the link as the file system does exactly when its line is read right. */
  lemma NextPathIsTrueExactly(files: Files, path: string)
    requires path in files.links
    ensures NextPath(files, path) == Resolve(path, files.links[path])
            <==> ArrowFree(files.details(path) + path) && !EndsLine(files.links[path])
  {
    hide HomeOf, ReadTarget, ArrowFree;
    var target := files.links[path];
    var front := TargetReadExactly(files.details(path), path, target);
    FinalNewlinesDropped("x", target);
    if EndsLine(target) {
      ResolveKeepsEnd(path, target);
      ResolveKeepsEnd(path, ReadTarget(files.details(path), path, target));
    } else if !ArrowFree(files.details(path) + path) {
      LongerLinkLeadsElsewhere(path, target, front);
    }
  }

  /**
   * However the path is written as a directory and a last component: the script goes on with what it
   * reads if that begins with a slash, else with what it reads put behind the directory of the link.
   */
  lemma NextPathStaysInDirectory(files: Files, path: string, home: string, last: string)
    requires path in files.links && path == home + last && '/' !in last && (home == "" || home[|home| - 1] == '/')
    ensures var read := ReadTarget(files.details(path), path, files.links[path]);
            NextPath(files, path) == if "/" <= read then read else home + read
  {
    HomeIsUnique(path, home, last);
    hide HomeOf, LastComponent, ReadTarget;
  }

  /**
   * It goes where the link points, to an absolute target or to a relative one seen from the
   * directory of the link, exactly when its line is read right.
   */
  lemma NextPathExactly(files: Files, path: string, home: string, last: string)
    requires path in files.links && path == home + last && '/' !in last && (home == "" || home[|home| - 1] == '/')
    ensures var target := files.links[path];
            NextPath(files, path) == (if "/" <= target then target else home + target)
            <==> ArrowFree(files.details(path) + path) && !EndsLine(target)
  {
    NextPathIsTrueExactly(files, path);
    HomeIsUnique(path, home, last);
    hide HomeOf, LastComponent, NextPath, ArrowFree, EndsLine;
  }

  /** What each turn of a run does to the path, in those terms. */
  lemma TurnStaysInDirectory(files: Files, start: string, k: nat, home: string, last: string)
    requires PathAfter(files, start, k) == home + last && '/' !in last && (home == "" || home[|home| - 1] == '/')
    ensures var path, next := home + last, PathAfter(files, start, k + 1);
            && (path !in files.links ==> next == path)
            && (path in files.links ==>
                  var read := ReadTarget(files.details(path), path, files.links[path]);
                  next == if "/" <= read then read else home + read)
  {
    if home + last in files.links {
      NextPathStaysInDirectory(files, home + last, home, last);
    }
  }

  lemma ResolveKeepsEnd(path: string, target: string)
    ensures EndsLine(Resolve(path, target)) <==> EndsLine(target)
  {
    HomeSplitsPath(path);
    hide HomeOf, LastComponent;
    var home := HomeOf(path);
    if target == "" {
      assert home + target == home;
    } else {
      assert (home + target)[|home + target| - 1] == target[|target| - 1];
    }
  }

  /** A misread link, which has the target after a blank, never leads to the right place. */
  lemma LongerLinkLeadsElsewhere(path: string, target: string, front: string)
    ensures Resolve(path, front + "-> " + target) != Resolve(path, target)
  {
    var read, home := front + "-> " + target, HomeOf(path);
    var there, here := Resolve(path, read), Resolve(path, target);
    HomeSplitsPath(path);
    hide HomeOf;
    assert |there| > |here| || (there == read && here == home + target);
    if there == read && here == home + target && |home| == |front| + 3 {
      assert there[|front| + 2] == ' ';
      assert here[|front| + 2] == home[|home| - 1] == '/';
    }
  }

  /** Turn i, if it is taken, goes where the file system says. */
  predicate TurnIsTrue(files: Files, start: string, i: nat) {
    var path := PathAfter(files, start, i);
    path in files.links ==> PathAfter(files, start, i + 1) == Resolve(path, files.links[path])
  }

  /** Turn i, if it is taken, has a line to read whose first arrow is the real one. */
  predicate TurnIsReadable(files: Files, start: string, i: nat) {
    var path := PathAfter(files, start, i);
    path in files.links ==> ArrowFree(files.details(path) + path) && !EndsLine(files.links[path])
  }

  /** The first k turns follow the links of the file system exactly when all their lines are readable. */
  lemma ChainIsTrueExactly(files: Files, start: string, k: nat)
    ensures (forall i: nat :: i < k ==> TurnIsTrue(files, start, i))
            <==> (forall i: nat :: i < k ==> TurnIsReadable(files, start, i))
  {
    forall i: nat | i < k ensures TurnIsTrue(files, start, i) <==> TurnIsReadable(files, start, i) {
      TurnIsTrueExactly(files, start, i);
    }
  }

  lemma TurnIsTrueExactly(files: Files, start: string, i: nat)
    ensures TurnIsTrue(files, start, i) <==> TurnIsReadable(files, start, i)
  {
    var path := PathAfter(files, start, i);
    if path in files.links {
      OneMoreTurn(files, start, i);
      NextPathIsTrueExactly(files, path);
    }
  }

  /** The loop ends in this chain of links. */
  ghost predicate Halts(files: Files, start: string) {
    exists n: nat :: PathAfter(files, start, n) !in files.links
  }

  lemma {:induction false} SamePathSameFuture(files: Files, start: string, i: nat, j: nat, d: nat)
    requires PathAfter(files, start, i) == PathAfter(files, start, j)
    ensures PathAfter(files, start, i + d) == PathAfter(files, start, j + d)
  {
    hide NextPath;
    if d > 0 {
      SamePathSameFuture(files, start, i, j, d - 1);
    }
  }

  function Visited(files: Files, start: string, k: nat): set<string> {
    if k == 0 then {} else Visited(files, start, k - 1) + {PathAfter(files, start, k - 1)}
  }

  lemma {:induction false} InVisited(files: Files, start: string, k: nat, path: string)
    requires path in Visited(files, start, k)
    ensures exists i: nat :: i < k && PathAfter(files, start, i) == path
  {
    if path != PathAfter(files, start, k - 1) {
      InVisited(files, start, k - 1, path);
    }
  }

  /** Before the chain ends, every link on it is met once. */
  lemma {:induction false} NoLinkTwice(files: Files, start: string, n: nat, k: nat)
    requires k <= n && PathAfter(files, start, n) !in files.links
    requires forall i: nat :: i < n ==> PathAfter(files, start, i) in files.links
    ensures |Visited(files, start, k)| == k && Visited(files, start, k) <= files.links.Keys
  {
    hide NextPath, PathAfter;
    if k > 0 {
      NoLinkTwice(files, start, n, k - 1);
      EachLinkIsNew(files, start, n, k - 1);
    }
  }

  lemma EachLinkIsNew(files: Files, start: string, n: nat, k: nat)
    requires k < n && PathAfter(files, start, n) !in files.links
    requires forall i: nat :: i < n ==> PathAfter(files, start, i) in files.links
    ensures PathAfter(files, start, k) !in Visited(files, start, k)
  {
    hide NextPath, PathAfter;
    forall i: nat | i < k ensures PathAfter(files, start, i) != PathAfter(files, start, k) {
      RevisitEndsEarlier(files, start, i, k, n);
    }
    VisitedEarlier(files, start, k);
  }

  lemma RevisitEndsEarlier(files: Files, start: string, i: nat, k: nat, n: nat)
    requires i < k <= n
    ensures PathAfter(files, start, i) == PathAfter(files, start, k) ==>
              PathAfter(files, start, i + n - k) == PathAfter(files, start, n)
  {
    hide NextPath, PathAfter;
    if PathAfter(files, start, i) == PathAfter(files, start, k) {
      SamePathSameFuture(files, start, i, k, n - k);
    }
  }

  lemma VisitedEarlier(files: Files, start: string, k: nat)
    requires forall i: nat :: i < k ==> PathAfter(files, start, i) != PathAfter(files, start, k)
    ensures PathAfter(files, start, k) !in Visited(files, start, k)
  {
    hide NextPath, PathAfter;
    if PathAfter(files, start, k) in Visited(files, start, k) {
      InVisited(files, start, k, PathAfter(files, start, k));
    }
  }

  /** The loop halts exactly when as many turns as there are links bring it to a path that is no link. */
  lemma HaltsWithinLinkCount(files: Files, start: string)
    ensures Halts(files, start) <==> PathAfter(files, start, |files.links|) !in files.links
  {
    if Halts(files, start) {
      var n := FirstNonLink(files, start);
      NoLinkTwice(files, start, n, n);
      SubsetIsSmaller(Visited(files, start, n), files.links.Keys);
      PathStays(files, start, n, |files.links|);
    }
  }

  lemma FirstNonLink(files: Files, start: string) returns (n: nat)
    requires Halts(files, start)
    ensures PathAfter(files, start, n) !in files.links
    ensures forall i: nat :: i < n ==> PathAfter(files, start, i) in files.links
  {
    hide NextPath;
    var m: nat :| PathAfter(files, start, m) !in files.links;
    n := 0;
    while PathAfter(files, start, n) in files.links
      invariant n <= m
      invariant forall i: nat :: i < n ==> PathAfter(files, start, i) in files.links
      decreases m - n
    {
      n := n + 1;
    }
  }

  lemma {:induction false} SubsetIsSmaller(a: set<string>, b: set<string>)
    requires a <= b
    ensures |a| <= |b|
  {
    if a != {} {
      var x :| x in a;
      SubsetIsSmaller(a - {x}, b - {x});
    }
  }

  // -------------------------------------------------------------------- endless chains

  /** The chain comes back to a link it has met. */
  predicate Revisits(files: Files, start: string, i: nat, j: nat) {
    i < j && PathAfter(files, start, i) in files.links && PathAfter(files, start, i) == PathAfter(files, start, j)
  }

  lemma RevisitingNeverHalts(files: Files, start: string, i: nat, j: nat)
    requires Revisits(files, start, i, j)
    ensures !Halts(files, start)
  {
    hide NextPath;
    if Halts(files, start) {
      var n := FirstNonLink(files, start);
      if n <= j {
        PathStays(files, start, n, j);
        assert false;
      } else {
        SamePathSameFuture(files, start, i, j, n - j);
        assert false;
      }
    }
  }

  lemma {:induction false} SomeLinkTwiceOrManyLinks(files: Files, start: string, k: nat)
    requires forall i: nat :: i < k ==> PathAfter(files, start, i) in files.links
    ensures Visited(files, start, k) <= files.links.Keys
    ensures |Visited(files, start, k)| == k || exists i: nat, j: nat :: j < k && Revisits(files, start, i, j)
  {
    hide NextPath, PathAfter;
    if k > 0 {
      SomeLinkTwiceOrManyLinks(files, start, k - 1);
      var path := PathAfter(files, start, k - 1);
      if path in Visited(files, start, k - 1) {
        InVisited(files, start, k - 1, path);
        var i: nat :| i < k - 1 && PathAfter(files, start, i) == path;
        assert Revisits(files, start, i, k - 1);
      }
    }
  }

  /** The loop runs for ever exactly when the chain comes back to a link, within as many turns as there are links. */
  lemma EndlessExactlyWhenRevisiting(files: Files, start: string)
    ensures !Halts(files, start) <==>
            exists i: nat, j: nat :: j <= |files.links| && Revisits(files, start, i, j)
  {
    if !Halts(files, start) {
      var k := |files.links| + 1;
      assert forall i: nat :: i < k ==> PathAfter(files, start, i) in files.links;
      SomeLinkTwiceOrManyLinks(files, start, k);
      SubsetIsSmaller(Visited(files, start, k), files.links.Keys);
    }
    forall i: nat, j: nat | j <= |files.links| && Revisits(files, start, i, j) ensures !Halts(files, start) {
      RevisitingNeverHalts(files, start, i, j);
    }
  }

  /** A rank that falls from each link to the link it points at makes a readable chain end. */
  lemma {:induction false} FallingRankHalts(files: Files, start: string, rank: string -> nat)
    requires forall i: nat :: TurnIsReadable(files, start, i)
    requires forall p :: p in files.links && Resolve(p, files.links[p]) in files.links ==>
               rank(Resolve(p, files.links[p])) < rank(p)
    ensures Halts(files, start)
  {
    RankFalls(files, start, rank, rank(start) + 1);
  }

  lemma {:induction false} RankFalls(files: Files, start: string, rank: string -> nat, k: nat)
    requires forall i: nat :: TurnIsReadable(files, start, i)
    requires forall p :: p in files.links && Resolve(p, files.links[p]) in files.links ==>
               rank(Resolve(p, files.links[p])) < rank(p)
    ensures PathAfter(files, start, k) !in files.links || rank(PathAfter(files, start, k)) + k <= rank(start)
  {
    hide Resolve, NextPath, TurnIsReadable;
    if k > 0 {
      RankFalls(files, start, rank, k - 1);
      TurnIsTrueExactly(files, start, k - 1);
    }
  }

  /** Where the links of the file system lead from a path in n steps. */
  function TruePathAfter(files: Files, path: string, n: nat): string {
    if n == 0 then path
    else
      var p := TruePathAfter(files, path, n - 1);
      if p in files.links then Resolve(p, files.links[p]) else p
  }

  /** No link leads back to itself. */
  ghost predicate Acyclic(files: Files) {
    forall p, n: nat :: p in files.links && n > 0 ==> TruePathAfter(files, p, n) != p
  }

  predicate EveryLineReadable(files: Files) {
    forall p :: p in files.links ==> ArrowFree(files.details(p) + p) && !EndsLine(files.links[p])
  }

  lemma {:induction false} ReadablePathsAreTrue(files: Files, start: string, n: nat)
    requires EveryLineReadable(files)
    ensures PathAfter(files, start, n) == TruePathAfter(files, start, n)
  {
    hide Resolve, NextPath;
    if n > 0 {
      ReadablePathsAreTrue(files, start, n - 1);
      var p := PathAfter(files, start, n - 1);
      if p in files.links {
        NextPathIsTrueExactly(files, p);
      }
    }
  }

  lemma {:induction false} PathFromTheMiddle(files: Files, start: string, i: nat, d: nat)
    ensures PathAfter(files, start, i + d) == PathAfter(files, PathAfter(files, start, i), d)
  {
    hide NextPath;
    if d > 0 {
      PathFromTheMiddle(files, start, i, d - 1);
    }
  }

  /** With readable lines, the loop halts from every path exactly when the links are acyclic. */
  lemma HaltsEverywhereExactlyWhenAcyclic(files: Files)
    requires EveryLineReadable(files)
    ensures (forall start :: Halts(files, start)) <==> Acyclic(files)
  {
    forall p, n: nat | p in files.links && n > 0 && TruePathAfter(files, p, n) == p ensures !Halts(files, p) {
      ReadablePathsAreTrue(files, p, n);
      assert Revisits(files, p, 0, n);
      RevisitingNeverHalts(files, p, 0, n);
    }
    forall start | !Halts(files, start) ensures !Acyclic(files) {
      CycleOfEndlessChain(files, start);
    }
  }

  lemma CycleOfEndlessChain(files: Files, start: string)
    requires EveryLineReadable(files) && !Halts(files, start)
    ensures !Acyclic(files)
  {
    hide NextPath, PathAfter, TruePathAfter, EveryLineReadable;
    EndlessExactlyWhenRevisiting(files, start);
    var i: nat, j: nat :| j <= |files.links| && Revisits(files, start, i, j);
    var p, n := PathAfter(files, start, i), j - i;
    PathFromTheMiddle(files, start, i, n);
    ReadablePathsAreTrue(files, p, n);
    assert p in files.links && n > 0 && TruePathAfter(files, p, n) == p;
  }
}
