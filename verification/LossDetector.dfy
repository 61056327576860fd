/** The receiving client's per-camera packet counter and its loss warning. */
module LossDetector {
  import opened Machine
  import U = UdpFragmenter

  /** The number from which on a packet is taken for the last one of an image. */
  const LAST: int := 240

  /** The two header words of a received datagram. */
  datatype Arrival = Arrival(cam: nat, number: int)

  /** Printed at each last packet: whether the loss warning came with it. */
  datatype Report = Report(cam: nat, warned: bool)

  predicate TwoCameras(arrivals: seq<Arrival>) {
    forall a :: a in arrivals ==> a.cam < 2
  }

  /** The reports of the receive loop, from the given counters on. */
  function Detect(counters: seq<int>, arrivals: seq<Arrival>): seq<Report>
    requires |counters| == 2 && TwoCameras(arrivals)
    decreases |arrivals|
  {
    if arrivals == [] then []
    else
      var a := arrivals[0];
      assert a in arrivals;
      var rest := arrivals[1..];
      assert forall b :: b in rest ==> b in arrivals;
      if a.number >= LAST then
        [Report(a.cam, counters[a.cam] != a.number)] + Detect(counters[a.cam := 0], rest)
      else Detect(counters[a.cam := counters[a.cam] + 1], rest)
  }

  /** One iteration of the loop. */
  lemma {:induction false} DetectAt(arrivals: seq<Arrival>, i: nat, counters: seq<int>, before: seq<Report>)
    requires TwoCameras(arrivals) && i < |arrivals| && |counters| == 2
    ensures TwoCameras(arrivals[i..]) && TwoCameras(arrivals[i + 1..]) && arrivals[i].cam < 2
    ensures arrivals[i].number >= LAST ==>
              before + Detect(counters, arrivals[i..]) ==
              (before + [Report(arrivals[i].cam, counters[arrivals[i].cam] != arrivals[i].number)])
              + Detect(counters[arrivals[i].cam := 0], arrivals[i + 1..])
    ensures arrivals[i].number < LAST ==>
              before + Detect(counters, arrivals[i..]) ==
              before + Detect(counters[arrivals[i].cam := counters[arrivals[i].cam] + 1], arrivals[i + 1..])
  {
    var a, left := arrivals[i], arrivals[i..];
    assert a in arrivals && left[0] == a && left[1..] == arrivals[i + 1..];
    assert forall b :: b in left ==> b in arrivals;
    assert forall b :: b in left[1..] ==> b in arrivals;
    if a.number >= LAST {
      ConcatAssoc(before, [Report(a.cam, counters[a.cam] != a.number)], Detect(counters[a.cam := 0], left[1..]));
    }
  }

  method ReceiveLoop(arrivals: seq<Arrival>) returns (reports: seq<Report>)
    requires TwoCameras(arrivals)
    ensures reports == Detect([0, 0], arrivals)
  {
    var imagePackageCounter := new int[2](_ => 0);
    reports := [];
    assert imagePackageCounter[..] == [0, 0];
    assert arrivals[0..] == arrivals;
    for i := 0 to |arrivals|
      invariant TwoCameras(arrivals[i..])
      invariant Detect([0, 0], arrivals) == reports + Detect(imagePackageCounter[..], arrivals[i..])
    {
      var a := arrivals[i];
      ghost var counters := imagePackageCounter[..];
      DetectAt(arrivals, i, counters, reports);
      if a.number >= LAST {
        reports := reports + [Report(a.cam, imagePackageCounter[a.cam] != a.number)];
        imagePackageCounter[a.cam] := 0;
        assert imagePackageCounter[..] == counters[a.cam := 0];
      } else {
        imagePackageCounter[a.cam] := imagePackageCounter[a.cam] + 1;
        assert imagePackageCounter[..] == counters[a.cam := counters[a.cam] + 1];
      }
    }
    assert reports + [] == reports;
  }

  // ----- what each report means -----

  /** Packets of a camera before arrival i since its latest packet numbered 240 or more. */
  function CountBefore(arrivals: seq<Arrival>, i: nat, cam: nat): nat
    requires i <= |arrivals|
  {
    if i == 0 then 0
    else if arrivals[i - 1].cam != cam then CountBefore(arrivals, i - 1, cam)
    else if arrivals[i - 1].number >= 240 then 0
    else CountBefore(arrivals, i - 1, cam) + 1
  }

  /** Packets of either camera before arrival i numbered 240 or more. */
  function ReportsBefore(arrivals: seq<Arrival>, i: nat): nat
    requires i <= |arrivals|
  {
    if i == 0 then 0 else ReportsBefore(arrivals, i - 1) + if arrivals[i - 1].number >= 240 then 1 else 0
  }

  lemma {:induction false} ReportsGrow(arrivals: seq<Arrival>, i: nat, j: nat)
    requires i <= j <= |arrivals|
    ensures ReportsBefore(arrivals, i) <= ReportsBefore(arrivals, j)
    decreases j
  {
    if i < j {
      ReportsGrow(arrivals, i, j - 1);
    }
  }

  function Counters(arrivals: seq<Arrival>, i: nat): seq<int>
    requires i <= |arrivals|
  {
    [CountBefore(arrivals, i, 0), CountBefore(arrivals, i, 1)]
  }

  lemma {:induction false} DetectCounts(arrivals: seq<Arrival>, i: nat)
    requires TwoCameras(arrivals) && i <= |arrivals|
    ensures TwoCameras(arrivals[i..])
    ensures |Detect(Counters(arrivals, i), arrivals[i..])|
         == ReportsBefore(arrivals, |arrivals|) - ReportsBefore(arrivals, i)
    decreases |arrivals| - i
  {
    assert forall b :: b in arrivals[i..] ==> b in arrivals;
    if i < |arrivals| {
      NextCounters(arrivals, i);
      DetectCounts(arrivals, i + 1);
    }
  }

  /** The loop's counters at arrival i, and what it makes of it. */
  lemma NextCounters(arrivals: seq<Arrival>, i: nat)
    requires TwoCameras(arrivals) && i < |arrivals|
    ensures TwoCameras(arrivals[i..]) && TwoCameras(arrivals[i + 1..]) && arrivals[i].cam < 2
    ensures Detect(Counters(arrivals, i), arrivals[i..]) ==
            (if arrivals[i].number >= 240
             then [Report(arrivals[i].cam, CountBefore(arrivals, i, arrivals[i].cam) != arrivals[i].number)] else [])
            + Detect(Counters(arrivals, i + 1), arrivals[i + 1..])
  {
    DetectAt(arrivals, i, Counters(arrivals, i), []);
    var a := arrivals[i];
    assert a in arrivals && arrivals[i..][0] == a && arrivals[i..][1..] == arrivals[i + 1..];
    assert Counters(arrivals, i + 1)
        == Counters(arrivals, i)[a.cam := if a.number >= 240 then 0 else CountBefore(arrivals, i, a.cam) + 1];
  }

  lemma {:induction false} ReportFrom(arrivals: seq<Arrival>, i: nat, j: nat)
    requires TwoCameras(arrivals) && i <= j < |arrivals| && arrivals[j].number >= 240
    ensures TwoCameras(arrivals[i..]) && ReportsBefore(arrivals, i) <= ReportsBefore(arrivals, j)
    ensures ReportsBefore(arrivals, j) - ReportsBefore(arrivals, i) < |Detect(Counters(arrivals, i), arrivals[i..])|
    ensures Detect(Counters(arrivals, i), arrivals[i..])[ReportsBefore(arrivals, j) - ReportsBefore(arrivals, i)]
         == Report(arrivals[j].cam, CountBefore(arrivals, j, arrivals[j].cam) != arrivals[j].number)
    decreases j - i
  {
    NextCounters(arrivals, i);
    ReportsGrow(arrivals, i, j);
    if i < j {
      ReportFrom(arrivals, i + 1, j);
    }
  }

  /**
   * The detector read off the arrivals alone: one report for each packet numbered 240 or more, in order, with a warning
   * exactly if its camera's packets since its latest such packet are not as many as its number.
   */
  lemma ReportsMean(arrivals: seq<Arrival>)
    requires TwoCameras(arrivals)
    ensures |Detect([0, 0], arrivals)| == ReportsBefore(arrivals, |arrivals|)
    ensures forall j :: 0 <= j < |arrivals| && arrivals[j].number >= 240 ==>
              && ReportsBefore(arrivals, j) < |Detect([0, 0], arrivals)|
              && Detect([0, 0], arrivals)[ReportsBefore(arrivals, j)]
                 == Report(arrivals[j].cam, CountBefore(arrivals, j, arrivals[j].cam) != arrivals[j].number)
  {
    assert arrivals[0..] == arrivals && Counters(arrivals, 0) == [0, 0];
    DetectCounts(arrivals, 0);
    forall j | 0 <= j < |arrivals| && arrivals[j].number >= 240
      ensures ReportsBefore(arrivals, j) < |Detect([0, 0], arrivals)|
      ensures Detect([0, 0], arrivals)[ReportsBefore(arrivals, j)]
           == Report(arrivals[j].cam, CountBefore(arrivals, j, arrivals[j].cam) != arrivals[j].number)
    {
      ReportFrom(arrivals, 0, j);
    }
  }

  // ----- the cameras do not influence each other -----

  /** The packet numbers of one camera, in order of arrival. */
  function Numbers(arrivals: seq<Arrival>, cam: nat): seq<int> {
    if arrivals == [] then []
    else (if arrivals[0].cam == cam then [arrivals[0].number] else []) + Numbers(arrivals[1..], cam)
  }

  function Warnings(reports: seq<Report>, cam: nat): seq<bool> {
    if reports == [] then []
    else (if reports[0].cam == cam then [reports[0].warned] else []) + Warnings(reports[1..], cam)
  }

  lemma {:induction false} WarningsCons(r: Report, reports: seq<Report>, cam: nat)
    ensures Warnings([r] + reports, cam) == if r.cam == cam then [r.warned] + Warnings(reports, cam) else Warnings(reports, cam)
  {
    assert ([r] + reports)[1..] == reports;
    assert [] + Warnings(reports, cam) == Warnings(reports, cam);
  }

  /** One camera's detector on its own. */
  function DetectAlone(counter: int, numbers: seq<int>): seq<bool>
    decreases |numbers|
  {
    if numbers == [] then []
    else if numbers[0] >= LAST then [counter != numbers[0]] + DetectAlone(0, numbers[1..])
    else DetectAlone(counter + 1, numbers[1..])
  }

  /** For every interleaving, a camera's warnings depend only on its own packets. */
  lemma {:induction false} CamerasAreIndependent(counters: seq<int>, arrivals: seq<Arrival>, cam: nat)
    requires |counters| == 2 && TwoCameras(arrivals) && cam < 2
    ensures Warnings(Detect(counters, arrivals), cam) == DetectAlone(counters[cam], Numbers(arrivals, cam))
    decreases |arrivals|
  {
    if arrivals != [] {
      DetectCons(counters, arrivals);
      var a, rest := arrivals[0], arrivals[1..];
      var next := counters[a.cam := if a.number >= LAST then 0 else counters[a.cam] + 1];
      CamerasAreIndependent(next, rest, cam);
      if a.number >= LAST {
        WarningsCons(Report(a.cam, counters[a.cam] != a.number), Detect(next, rest), cam);
      }
      AloneCons(counters[cam], arrivals, cam);
    }
  }

  /** What the first arrival means to the loop. */
  lemma {:induction false} DetectCons(counters: seq<int>, arrivals: seq<Arrival>)
    requires |counters| == 2 && TwoCameras(arrivals) && arrivals != []
    ensures arrivals[0].cam < 2 && TwoCameras(arrivals[1..])
    ensures var a := arrivals[0];
            var next := counters[a.cam := if a.number >= LAST then 0 else counters[a.cam] + 1];
            Detect(counters, arrivals) ==
            (if a.number >= LAST then [Report(a.cam, counters[a.cam] != a.number)] else []) + Detect(next, arrivals[1..])
  {
    assert arrivals[0] in arrivals && forall b :: b in arrivals[1..] ==> b in arrivals;
  }

  /** What the first arrival means to one camera. */
  lemma AloneCons(counter: int, arrivals: seq<Arrival>, cam: nat)
    requires arrivals != []
    ensures var a, rest := arrivals[0], Numbers(arrivals[1..], cam);
            DetectAlone(counter, Numbers(arrivals, cam)) ==
            if a.cam != cam then DetectAlone(counter, rest)
            else if a.number >= LAST then [counter != a.number] + DetectAlone(0, rest)
            else DetectAlone(counter + 1, rest)
  {
    var a, rest := arrivals[0], Numbers(arrivals[1..], cam);
    if a.cam == cam {
      assert Numbers(arrivals, cam)[1..] == rest;
    } else {
      assert Numbers(arrivals, cam) == rest;
    }
  }

  // ----- what a warning means -----

  /** One image as it arrived: the packets before the final one, then the final one. */
  datatype Image = Image(body: seq<int>, last: int)

  predicate Framed(image: Image) {
    image.last >= LAST && forall n :: n in image.body ==> 0 <= n < LAST
  }

  function Flatten(images: seq<Image>): seq<int> {
    if images == [] then [] else images[0].body + [images[0].last] + Flatten(images[1..])
  }

  lemma {:induction false} BodyCounts(counter: int, body: seq<int>, rest: seq<int>)
    requires forall n :: n in body ==> n < LAST
    ensures DetectAlone(counter, body + rest) == DetectAlone(counter + |body|, rest)
    decreases |body|
  {
    if body == [] {
      assert body + rest == rest;
    } else {
      assert (body + rest)[1..] == body[1..] + rest;
      assert body[0] in body && forall n :: n in body[1..] ==> n in body;
      BodyCounts(counter + 1, body[1..], rest);
    }
  }

  /** With no assumption on duplicates: the warning fires exactly when the count of other packets is not `last`. */
  lemma {:induction false} WarningIffCountDiffers(images: seq<Image>)
    requires forall image :: image in images ==> Framed(image)
    ensures |DetectAlone(0, Flatten(images))| == |images|
    ensures forall k :: 0 <= k < |images| ==>
              (DetectAlone(0, Flatten(images))[k] <==> |images[k].body| != images[k].last)
    decreases |images|
  {
    if images != [] {
      var first, rest := images[0], Flatten(images[1..]);
      assert Framed(first);
      WarningIffCountDiffers(images[1..]);
      assert Flatten(images) == first.body + ([first.last] + rest);
      BodyCounts(0, first.body, [first.last] + rest);
      assert ([first.last] + rest)[1..] == rest;
    }
  }

  predicate NoDuplicates(body: seq<int>) {
    forall i, j :: 0 <= i < j < |body| ==> body[i] != body[j]
  }

  function Range(n: nat): (r: set<int>)
    ensures forall k :: k in r <==> 0 <= k < n
  {
    if n == 0 then {} else Range(n - 1) + {n - 1}
  }

  lemma {:induction false} RangeSize(n: nat)
    ensures |Range(n)| == n
  {
    if n > 0 {
      RangeSize(n - 1);
    }
  }

  function Elements(body: seq<int>): set<int> {
    set n | n in body
  }

  lemma {:induction false} ProperSubsetMisses(have: set<int>, size: nat)
    requires have <= Range(size)
    ensures |have| != size <==> exists n :: 0 <= n < size && n !in have
  {
    RangeSize(size);
    if |have| == size {
      SubsetOfSameSize(have, Range(size));
    } else {
      assert have != Range(size);
      var n :| n in Range(size) && n !in have;
    }
  }

  lemma SubsetSize(a: set<int>, b: set<int>)
    requires a <= b
    ensures |a| <= |b|
  {
    assert b == a + (b - a);
    assert |b| == |a| + |b - a|;
  }

  lemma {:induction false} SubsetOfRange(body: seq<int>, size: nat)
    requires forall n :: n in body ==> 0 <= n < size
    ensures Elements(body) <= Range(size)
  {
  }

  lemma SubsetOfSameSize(a: set<int>, b: set<int>)
    requires a <= b && |a| == |b|
    ensures a == b
  {
    assert b == a + (b - a);
    assert |b| == |a| + |b - a|;
  }

  /** How many of the packets announced by the final one never arrived. */
  function Missing(image: Image): int {
    image.last - |Elements(image.body)|
  }

  /** How many packets arrived beyond the first of their number. */
  function Duplicates(image: Image): int {
    |image.body| - |Elements(image.body)|
  }

  predicate SomeMissing(image: Image) {
    exists n :: 0 <= n < image.last && n !in image.body
  }

  lemma MissingCounts(image: Image)
    requires Framed(image)
    ensures 0 <= Missing(image)
    ensures Missing(image) > 0 <==> SomeMissing(image)
  {
    SubsetOfRange(image.body, image.last);
    ProperSubsetMisses(Elements(image.body), image.last);
    SubsetSize(Elements(image.body), Range(image.last));
    RangeSize(image.last);
    assert forall n :: n in Elements(image.body) <==> n in image.body;
  }

  lemma DuplicatesCount(body: seq<int>)
    ensures |Elements(body)| <= |body|
    ensures |Elements(body)| == |body| <==> NoDuplicates(body)
  {
    if body != [] {
      var front, x := body[..|body| - 1], body[|body| - 1];
      DuplicatesCount(front);
      assert body == front + [x];
      assert Elements(body) == Elements(front) + {x};
      if x in front {
        var i :| 0 <= i < |front| && front[i] == x;
        assert body[i] == body[|body| - 1];
        assert Elements(body) == Elements(front);
      } else {
        assert |Elements(body)| == |Elements(front)| + 1;
        assert NoDuplicates(body) <==> NoDuplicates(front) by {
          assert forall i, j :: 0 <= i < j < |front| ==> (body[i] != body[j] <==> front[i] != front[j]);
        }
      }
    }
  }

  /**
   * What a warning is worth. For any interleaving of two cameras, whatever is lost, repeated or reordered, if each
   * image's final packet closes that image, the k-th report of a camera warns exactly when its k-th image has not
   * as many duplicates as packets missing. So the warning is right, that is, given exactly when a packet is missing, if and
   * only if there are no duplicates, or packets are missing and not as many as there are duplicates.
   */
  lemma {:induction false} WarningRightIff(arrivals: seq<Arrival>, cam: nat, images: seq<Image>)
    requires TwoCameras(arrivals) && cam < 2 && Numbers(arrivals, cam) == Flatten(images)
    requires forall image :: image in images ==> Framed(image)
    ensures |Warnings(Detect([0, 0], arrivals), cam)| == |images|
    ensures forall k :: 0 <= k < |images| ==>
              && (Warnings(Detect([0, 0], arrivals), cam)[k] <==> Duplicates(images[k]) != Missing(images[k]))
              && ((Warnings(Detect([0, 0], arrivals), cam)[k] <==> SomeMissing(images[k]))
                  <==> NoDuplicates(images[k].body)
                       || (Missing(images[k]) > 0 && Duplicates(images[k]) != Missing(images[k])))
  {
    CamerasAreIndependent([0, 0], arrivals, cam);
    WarningIffCountDiffers(images);
    forall k | 0 <= k < |images|
      ensures Missing(images[k]) >= 0 && (Missing(images[k]) > 0 <==> SomeMissing(images[k]))
      ensures Duplicates(images[k]) >= 0 && (Duplicates(images[k]) == 0 <==> NoDuplicates(images[k].body))
    {
      assert images[k] in images;
      MissingCounts(images[k]);
      DuplicatesCount(images[k].body);
    }
  }

  /** Without duplicates the k-th report of a camera warns exactly when some packet of its k-th image is missing. */
  lemma {:induction false} WarningIffLost(arrivals: seq<Arrival>, cam: nat, images: seq<Image>)
    requires TwoCameras(arrivals) && cam < 2 && Numbers(arrivals, cam) == Flatten(images)
    requires forall image :: image in images ==> Framed(image) && NoDuplicates(image.body)
    ensures |Warnings(Detect([0, 0], arrivals), cam)| == |images|
    ensures forall k :: 0 <= k < |images| ==>
              (Warnings(Detect([0, 0], arrivals), cam)[k] <==> SomeMissing(images[k]))
  {
    WarningRightIff(arrivals, cam, images);
    forall k | 0 <= k < |images|
      ensures NoDuplicates(images[k].body)
    {
      assert images[k] in images;
    }
  }

  /** A loss without a warning: packet 0 twice, packet 1 never. */
  lemma DuplicateHidesLoss()
    ensures exists image :: Framed(image) && image.last == LAST && 1 !in image.body
              && DetectAlone(0, Flatten([image])) == [false]
  {
    var image := Image(seq(LAST, i => if i == 1 then 0 else i), LAST);
    assert Framed(image) && 1 !in image.body;
    WarningIffCountDiffers([image]);
  }

  /** A warning without a loss: every packet arrives, packet 0 twice. */
  lemma DuplicateRaisesFalseAlarm()
    ensures exists image :: Framed(image) && image.last == LAST && !SomeMissing(image)
              && DetectAlone(0, Flatten([image])) == [true]
  {
    var image := Image(seq(LAST, i => i) + [0], LAST);
    assert Framed(image);
    forall n | 0 <= n < LAST
      ensures n in image.body
    {
      assert image.body[n] == n;
    }
    WarningIffCountDiffers([image]);
  }

  // ----- lost final packets -----

  /** One image as it was sent: the packets before the final one that arrived, and whether the final one did. */
  datatype Sending = Sending(image: Image, finalArrived: bool)

  ghost predicate AllFramed(sent: seq<Sending>) {
    forall x :: x in sent ==> Framed(x.image)
  }

  function Arrived(sent: seq<Sending>): seq<int> {
    if sent == [] then []
    else sent[0].image.body + ((if sent[0].finalArrived then [sent[0].image.last] else []) + Arrived(sent[1..]))
  }

  /** How many of the first i images get a report. */
  function Reported(sent: seq<Sending>, i: nat): nat
    requires i <= |sent|
  {
    if i == 0 then 0 else Reported(sent, i - 1) + if sent[i - 1].finalArrived then 1 else 0
  }

  /** Packets of the images before image i that the detector still counts when i begins. */
  function Carried(start: nat, sent: seq<Sending>, i: nat): nat
    requires i <= |sent|
  {
    if i == 0 then start
    else if sent[i - 1].finalArrived then 0
    else Carried(start, sent, i - 1) + |sent[i - 1].image.body|
  }

  lemma RestShifts(start: nat, sent: seq<Sending>, i: nat)
    requires 0 < i <= |sent|
    ensures var next := if sent[0].finalArrived then 0 else start + |sent[0].image.body|;
            Carried(start, sent, i) == Carried(next, sent[1..], i - 1)
    ensures Reported(sent, i) == (if sent[0].finalArrived then 1 else 0) + Reported(sent[1..], i - 1)
    decreases i
  {
    if i > 1 {
      RestShifts(start, sent, i - 1);
      assert sent[1..][i - 2] == sent[i - 1];
    }
  }

  lemma AloneStep(start: nat, first: Sending, rest: seq<int>)
    requires Framed(first.image)
    ensures DetectAlone(start, first.image.body + ((if first.finalArrived then [first.image.last] else []) + rest)) ==
            if first.finalArrived then [start + |first.image.body| != first.image.last] + DetectAlone(0, rest)
            else DetectAlone(start + |first.image.body|, rest)
  {
    BodyCounts(start, first.image.body, (if first.finalArrived then [first.image.last] else []) + rest);
    if first.finalArrived {
      assert ([first.image.last] + rest)[1..] == rest;
    } else {
      assert [] + rest == rest;
    }
  }

  lemma {:induction false} ReportsCounted(start: nat, sent: seq<Sending>)
    requires AllFramed(sent)
    ensures |DetectAlone(start, Arrived(sent))| == Reported(sent, |sent|)
    decreases |sent|
  {
    if sent != [] {
      assert sent[0] in sent && forall x :: x in sent[1..] ==> x in sent;
      AloneStep(start, sent[0], Arrived(sent[1..]));
      ReportsCounted(if sent[0].finalArrived then 0 else start + |sent[0].image.body|, sent[1..]);
      RestShifts(start, sent, |sent|);
    }
  }

  lemma {:induction false} ReportAt(start: nat, sent: seq<Sending>, i: nat)
    requires AllFramed(sent) && i < |sent| && sent[i].finalArrived
    ensures Reported(sent, i) < |DetectAlone(start, Arrived(sent))|
    ensures DetectAlone(start, Arrived(sent))[Reported(sent, i)]
            <==> Carried(start, sent, i) + |sent[i].image.body| != sent[i].image.last
    decreases i
  {
    assert sent[0] in sent && forall x :: x in sent[1..] ==> x in sent;
    AloneStep(start, sent[0], Arrived(sent[1..]));
    if i > 0 {
      ReportAt(if sent[0].finalArrived then 0 else start + |sent[0].image.body|, sent[1..], i - 1);
      RestShifts(start, sent, i);
    }
  }

  /**
   * The warning per image sent, when final packets too are lost. An image without its final packet gets no report, and
   * its packets count towards the next. The report of image i warns exactly when its duplicates and the packets
   * carried over are not as many as its packets missing; and it is right about image i exactly if there are
   * neither, or packets are missing and not as many.
   */
  lemma {:induction false} WarningPerImageSent(arrivals: seq<Arrival>, cam: nat, sent: seq<Sending>)
    requires TwoCameras(arrivals) && cam < 2 && Numbers(arrivals, cam) == Arrived(sent) && AllFramed(sent)
    ensures |Warnings(Detect([0, 0], arrivals), cam)| == Reported(sent, |sent|)
    ensures forall i :: 0 <= i < |sent| && sent[i].finalArrived ==>
              && Reported(sent, i) < Reported(sent, |sent|)
              && var warned := Warnings(Detect([0, 0], arrivals), cam)[Reported(sent, i)];
                 var surplus := Carried(0, sent, i) + Duplicates(sent[i].image);
                 && (warned <==> surplus != Missing(sent[i].image))
                 && ((warned <==> SomeMissing(sent[i].image))
                     <==> surplus == 0 || (Missing(sent[i].image) > 0 && surplus != Missing(sent[i].image)))
  {
    CamerasAreIndependent([0, 0], arrivals, cam);
    ReportsCounted(0, sent);
    forall i | 0 <= i < |sent| && sent[i].finalArrived
      ensures Missing(sent[i].image) >= 0 && (Missing(sent[i].image) > 0 <==> SomeMissing(sent[i].image))
      ensures Duplicates(sent[i].image) >= 0 && Reported(sent, i) < Reported(sent, |sent|)
      ensures Warnings(Detect([0, 0], arrivals), cam)[Reported(sent, i)]
              <==> Carried(0, sent, i) + |sent[i].image.body| != sent[i].image.last
    {
      assert sent[i] in sent;
      ReportAt(0, sent, i);
      MissingCounts(sent[i].image);
      DuplicatesCount(sent[i].image.body);
    }
  }

  // ----- together with the fragmenter -----

  /** The body of an image and its final packet hold the fragmenter's numbers for `data`, the body in any order. */
  ghost predicate Delivers(cam: nat, data: Bytes, image: Image) {
    var ps := U.Fragments(cam, data, 0, 0, U.Whole);
    && |ps| > 0
    && multiset(image.body) == multiset(PacketNumbers(ps[..|ps| - 1]))
    && image.last == ps[|ps| - 1].number
  }

  function PacketNumbers(ps: seq<U.Packet>): seq<int> {
    seq(|ps|, i requires 0 <= i < |ps| => ps[i].number)
  }

  /** Any number of images sent whole, none of whose packets is lost or repeated, raise no warning in any order of the bodies. */
  lemma {:induction false} FaithfulDeliveryIsSilent(cam: nat, arrivals: seq<Arrival>, data: seq<Bytes>, images: seq<Image>)
    requires TwoCameras(arrivals) && cam < 2 && Numbers(arrivals, cam) == Flatten(images) && |data| == |images|
    requires forall k :: 0 <= k < |images| ==> |data[k]| == IMAGE_SIZE && Delivers(cam, data[k], images[k])
    ensures Warnings(Detect([0, 0], arrivals), cam) == seq(|images|, _ => false)
  {
    forall image | image in images
      ensures Framed(image) && |image.body| == image.last
    {
      var k :| 0 <= k < |images| && images[k] == image;
      DeliveredIsFramed(cam, data[k], image);
    }
    CamerasAreIndependent([0, 0], arrivals, cam);
    WarningIffCountDiffers(images);
    forall k | 0 <= k < |images|
      ensures !Warnings(Detect([0, 0], arrivals), cam)[k]
    {
      assert images[k] in images;
    }
  }

  lemma DeliveredIsFramed(cam: nat, data: Bytes, image: Image)
    requires |data| == IMAGE_SIZE && Delivers(cam, data, image)
    ensures Framed(image) && |image.body| == image.last == LAST
  {
    U.ImageHas241Packets(cam, data);
    var ps := U.Fragments(cam, data, 0, 0, U.Whole);
    var sent := PacketNumbers(ps[..|ps| - 1]);
    assert |multiset(image.body)| == |multiset(sent)|;
    forall n | n in image.body
      ensures 0 <= n < LAST
    {
      assert n in multiset(image.body);
      assert n in multiset(sent);
      var k :| 0 <= k < |sent| && sent[k] == n;
    }
  }
}
