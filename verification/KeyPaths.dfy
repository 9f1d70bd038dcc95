// Schema key paths such as `agents[].id` and the steps they stand for.
module KeyPaths {
  import opened Splitting
  import opened ConfigTypes

  const ARRAY := "[]"

  predicate IsArraySegment(segment: string) {
    |segment| >= |ARRAY| && segment[|segment| - |ARRAY|..] == ARRAY
  }

  function Elements(n: nat): seq<PathStep> {
    if n == 0 then [] else [Element] + Elements(n - 1)
  }

  // A segment names a member and then goes into as many arrays as `[]` follow the name.
  function SegmentSteps(segment: string, arrays: nat): seq<PathStep> {
    if IsArraySegment(segment) then SegmentSteps(segment[..|segment| - |ARRAY|], arrays + 1)
    else [PathStep.Named(segment)] + Elements(arrays)
  }

  function AllSteps(segments: seq<string>): seq<PathStep> {
    if segments == [] then [] else SegmentSteps(segments[0], 0) + AllSteps(segments[1..])
  }

  function Steps(path: string): seq<PathStep> {
    AllSteps(SplitOn(path, '.'))
  }

  method ParsePath(path: string) returns (steps: seq<PathStep>)
    ensures steps == Steps(path)
  {
    steps := [];
    var segments := SplitOn(path, '.');
    for i := 0 to |segments|
      invariant steps + AllSteps(segments[i..]) == Steps(path)
    {
      var name, arrays: nat := segments[i], 0;
      while IsArraySegment(name)
        invariant SegmentSteps(name, arrays) == SegmentSteps(segments[i], 0)
        decreases |name|
      {
        name := name[..|name| - |ARRAY|];
        arrays := arrays + 1;
      }
      ghost var before := steps;
      steps := steps + [PathStep.Named(name)];
      for k := 0 to arrays
        invariant steps == before + [PathStep.Named(name)] + Elements(k)
      {
        OneMoreElement(before + [PathStep.Named(name)], k);
        steps := steps + [Element];
      }
      Assoc(before, [PathStep.Named(name)], Elements(arrays));
      assert segments[i..][1..] == segments[i + 1..];
      AllStepsAhead(before, segments[i..]);
    }
  }

  lemma AllStepsAhead(before: seq<PathStep>, segments: seq<string>)
    requires segments != []
    ensures before + AllSteps(segments) == before + SegmentSteps(segments[0], 0) + AllSteps(segments[1..])
  {
  }

  lemma {:induction false} ElementsSnoc(n: nat)
    ensures Elements(n) + [Element] == Elements(n + 1)
  {
    if n > 0 { ElementsSnoc(n - 1); }
  }

  lemma OneMoreElement(before: seq<PathStep>, n: nat)
    ensures before + Elements(n) + [Element] == before + Elements(n + 1)
  {
    ElementsSnoc(n);
    Assoc(before, Elements(n), [Element]);
  }

  // ---- The text of steps ----

  function StepText(step: PathStep): string {
    match step
    case Named(member) => "." + member
    case Element => ARRAY
  }

  // The steps written out, each member behind a dot.
  function Text(steps: seq<PathStep>): string {
    if steps == [] then "" else Text(steps[..|steps| - 1]) + StepText(steps[|steps| - 1])
  }

  predicate IsPlainStep(step: PathStep) {
    step.Named? ==> !IsArraySegment(step.member) && '.' !in step.member
  }

  // What parsing can yield: a member first, no dot in a member and no member ending in `[]`.
  ghost predicate IsPath(steps: seq<PathStep>) {
    && steps != [] && steps[0].Named?
    && forall step :: step in steps ==> IsPlainStep(step)
  }

  lemma {:induction false} TextConcat(a: seq<PathStep>, b: seq<PathStep>)
    ensures Text(a + b) == Text(a) + Text(b)
  {
    if b == [] {
      assert a + b == a;
    } else {
      var front, last := b[..|b| - 1], b[|b| - 1];
      assert b == front + [last];
      TextConcat(a, front);
      TextConcatStep(a, front, last);
    }
  }

  lemma TextConcatStep(a: seq<PathStep>, front: seq<PathStep>, last: PathStep)
    requires Text(a + front) == Text(a) + Text(front)
    ensures Text(a + (front + [last])) == Text(a) + Text(front + [last])
  {
    TextSnoc(a + front, last);
    TextSnoc(front, last);
    Assoc(a, front, [last]);
    Assoc(Text(a), Text(front), StepText(last));
  }

  lemma TextSnoc(steps: seq<PathStep>, last: PathStep)
    ensures Text(steps + [last]) == Text(steps) + StepText(last)
  {
    assert (steps + [last])[..|steps|] == steps;
  }

  function Brackets(n: nat): string {
    if n == 0 then "" else ARRAY + Brackets(n - 1)
  }

  lemma {:induction false} ElementsText(n: nat)
    ensures Text(Elements(n)) == Brackets(n)
  {
    if n > 0 {
      ElementsText(n - 1);
      ElementText(Elements(n - 1));
    }
  }

  lemma ElementText(rest: seq<PathStep>)
    ensures Text([Element] + rest) == ARRAY + Text(rest)
  {
    OneText(Element);
    TextConcat([Element], rest);
  }

  lemma {:induction false} SegmentText(segment: string, arrays: nat)
    ensures Text(SegmentSteps(segment, arrays)) == "." + segment + Brackets(arrays)
  {
    if IsArraySegment(segment) {
      var name := segment[..|segment| - |ARRAY|];
      SegmentText(name, arrays + 1);
      assert segment == name + ARRAY;
      Regroup(".", name, ARRAY, Brackets(arrays));
    } else {
      TextConcat([PathStep.Named(segment)], Elements(arrays));
      ElementsText(arrays);
      OneText(PathStep.Named(segment));
    }
  }

  lemma Regroup(a: string, b: string, c: string, d: string)
    ensures a + b + (c + d) == a + (b + c) + d
  {
  }

  lemma OneText(step: PathStep)
    ensures Text([step]) == StepText(step)
  {
    assert Text([step]) == Text([]) + StepText(step);
  }

  function Dotted(segments: seq<string>): string {
    if segments == [] then "" else "." + segments[0] + Dotted(segments[1..])
  }

  lemma {:induction false} DottedText(segments: seq<string>)
    ensures Text(AllSteps(segments)) == Dotted(segments)
  {
    if segments != [] {
      TextConcat(SegmentSteps(segments[0], 0), AllSteps(segments[1..]));
      SegmentText(segments[0], 0);
      DottedText(segments[1..]);
    }
  }

  lemma {:induction false} DottedSplit(path: string)
    ensures Dotted(SplitOn(path, '.')) == "." + path
  {
    if path != "" {
      var parts := SplitOn(path[1..], '.');
      DottedSplit(path[1..]);
      FirstAndRest(path);
      if path[0] == '.' {
        DottedCons("", parts);
      } else {
        DottedCons([path[0]] + parts[0], parts[1..]);
        TailText(parts[0], Dotted(parts[1..]), path[1..]);
        Regroup(".", [path[0]], parts[0], Dotted(parts[1..]));
        Assoc(".", [path[0]], path[1..]);
      }
    }
  }

  lemma FirstAndRest(path: string)
    requires path != ""
    ensures path == [path[0]] + path[1..]
  {
  }

  lemma DottedCons(segment: string, rest: seq<string>)
    ensures Dotted([segment] + rest) == "." + segment + Dotted(rest)
  {
    assert ([segment] + rest)[1..] == rest;
  }

  lemma TailText(part: string, rest: string, path: string)
    requires "." + part + rest == "." + path
    ensures part + rest == path
  {
    assert ("." + part + rest)[1..] == part + rest && ("." + path)[1..] == path;
  }

  // ---- Round trips ----

  // Writing out the parsed steps gives the path back: parsing loses nothing.
  lemma TextOfSteps(path: string)
    ensures Text(Steps(path)) == "." + path
  {
    DottedText(SplitOn(path, '.'));
    DottedSplit(path);
  }

  lemma {:induction false} SegmentIsPath(segment: string, arrays: nat)
    requires '.' !in segment
    ensures IsPath(SegmentSteps(segment, arrays))
  {
    if IsArraySegment(segment) {
      SegmentIsPath(segment[..|segment| - |ARRAY|], arrays + 1);
    } else {
      OnlyElements(arrays);
    }
  }

  lemma {:induction false} OnlyElements(n: nat)
    ensures forall step :: step in Elements(n) ==> step == Element
  {
    if n > 0 { OnlyElements(n - 1); }
  }

  lemma {:induction false} PartsAreDotless(s: string)
    ensures forall part :: part in SplitOn(s, '.') ==> '.' !in part
  {
    if s != "" {
      PartsAreDotless(s[1..]);
      var parts := SplitOn(s[1..], '.');
      assert parts[0] in parts;
      assert forall part :: part in parts[1..] ==> part in parts;
    }
  }

  lemma {:induction false} AllStepsArePlain(segments: seq<string>)
    requires forall segment :: segment in segments ==> '.' !in segment
    ensures forall step :: step in AllSteps(segments) ==> IsPlainStep(step)
    ensures segments != [] ==> IsPath(AllSteps(segments))
  {
    if segments != [] {
      assert segments[0] in segments;
      SegmentIsPath(segments[0], 0);
      AllStepsArePlain(segments[1..]);
    }
  }

  lemma ParsedIsPath(path: string)
    ensures IsPath(Steps(path))
  {
    PartsAreDotless(path);
    AllStepsArePlain(SplitOn(path, '.'));
  }

  ghost predicate AllPlain(steps: seq<PathStep>) {
    forall step :: step in steps ==> IsPlainStep(step)
  }

  // Different steps are written differently.
  lemma {:induction false} TextIsInjective(a: seq<PathStep>, b: seq<PathStep>)
    requires AllPlain(a) && AllPlain(b) && Text(a) == Text(b)
    ensures a == b
  {
    if a == [] || b == [] {
      TextIsEmpty(a);
      TextIsEmpty(b);
    } else {
      var x, y := a[|a| - 1], b[|b| - 1];
      var front, front' := a[..|a| - 1], b[..|b| - 1];
      FrontIsPlain(a);
      FrontIsPlain(b);
      LastStep(Text(front), x, Text(front'), y);
      TextIsInjective(front, front');
      FrontAndLast(a);
      FrontAndLast(b);
    }
  }

  lemma FrontAndLast<T>(s: seq<T>)
    requires s != []
    ensures s == s[..|s| - 1] + [s[|s| - 1]]
  {
  }

  lemma TextIsEmpty(steps: seq<PathStep>)
    ensures Text(steps) == "" <==> steps == []
  {
  }

  lemma FrontIsPlain(steps: seq<PathStep>)
    requires steps != [] && AllPlain(steps)
    ensures IsPlainStep(steps[|steps| - 1]) && AllPlain(steps[..|steps| - 1])
  {
  }

  // The last step is the one way to read the end of the text.
  lemma LastStep(s: string, x: PathStep, t: string, y: PathStep)
    requires IsPlainStep(x) && IsPlainStep(y) && s + StepText(x) == t + StepText(y)
    ensures s == t && x == y
  {
    if x.Named? && y.Named? {
      SameMember(s, x.member, t, y.member);
    } else if x.Named? {
      ElementIsNoMember(s, x.member, t);
    } else if y.Named? {
      ElementIsNoMember(t, y.member, s);
    } else {
      assert s == (s + ARRAY)[..|s + ARRAY| - 2] && t == (t + ARRAY)[..|t + ARRAY| - 2];
    }
  }

  lemma SameMember(s: string, m: string, t: string, n: string)
    requires '.' !in m && '.' !in n && s + ("." + m) == t + ("." + n)
    ensures s == t && m == n
  {
    var whole := s + ("." + m);
    assert whole[|s|] == '.' && whole[|t|] == '.';
    assert forall i :: |s| < i < |whole| ==> whole[i] == m[i - |s| - 1];
    assert forall i :: |t| < i < |whole| ==> whole[i] == n[i - |t| - 1];
    assert whole[..|s|] == s && whole[..|t|] == t;
    assert whole[|s| + 1..] == m && whole[|t| + 1..] == n;
  }

  lemma ElementIsNoMember(s: string, m: string, t: string)
    requires !IsArraySegment(m)
    ensures s + ("." + m) != t + ARRAY
  {
    var a, b := s + ("." + m), t + ARRAY;
    assert b[|b| - 2..] == ARRAY;
    if |m| >= 2 {
      assert a[|a| - 2..] == m[|m| - 2..];
    } else {
      assert a[|a| - 1 - |m|] == '.';
    }
  }

  // Parsing what a path writes out gives its steps back.
  lemma StepsOfText(steps: seq<PathStep>)
    requires IsPath(steps)
    ensures Text(steps) != "" && Steps(Text(steps)[1..]) == steps
  {
    assert steps == [steps[0]] + steps[1..];
    TextConcat([steps[0]], steps[1..]);
    OneText(steps[0]);
    var path := Text(steps)[1..];
    assert Text(steps) == "." + path;
    TextOfSteps(path);
    ParsedIsPath(path);
    TextIsInjective(steps, Steps(path));
  }
}
