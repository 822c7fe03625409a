/** The executable mappings of a process grouped by file, and the file offset of an address. */
module DsoMaps {
  import opened Words
  import opened Selection
  import opened SymTable

  /** A line of /proc/PID/maps. */
  datatype Line = Line(start: U64, end: U64, exec: bool, fileOff: U64, name: string)

  datatype Range = Range(start: U64, end: U64, fileOff: U64)

  /** The position of a .text section. */
  datatype Text = Text(addr: U64, offset: U64)

  /** What opening a mapped file tells; `text` is None when its .text section is not found. */
  datatype FileInfo = ExecFile | DynFile(text: Option<Text>) | NotElf

  datatype Dso = Dso(name: string, ranges: seq<Range>, kind: DsoType, shAddr: U64, shOffset: U64)

  // ----- Which lines count

  predicate StartsWith(s: string, prefix: string) {
    prefix <= s
  }

  predicate IsFileBacked(name: string) {
    name != "" && !(
      StartsWith(name, "//anon") ||
      StartsWith(name, "/dev/zero") ||
      StartsWith(name, "/anon_hugepage") ||
      StartsWith(name, "[stack") ||
      StartsWith(name, "/SYSV") ||
      StartsWith(name, "[heap]") ||
      StartsWith(name, "[uprobes]") ||
      StartsWith(name, "[vsyscall]"))
  }

  predicate Accepted(line: Line) {
    line.exec && IsFileBacked(line.name)
  }

  function AcceptedLines(lines: seq<Line>): seq<Line> {
    if lines == [] then []
    else
      var line := lines[|lines| - 1];
      AcceptedLines(lines[..|lines| - 1]) + if Accepted(line) then [line] else []
  }

  // ----- What grouping means

  function RangeOf(m: Line): Range {
    Range(m.start, m.end, m.fileOff)
  }

  /** The ranges of the lines named `name`, in order. */
  function RangesOf(ms: seq<Line>, name: string): seq<Range> {
    if ms == [] then []
    else
      var m := ms[|ms| - 1];
      RangesOf(ms[..|ms| - 1], name) + if m.name == name then [RangeOf(m)] else []
  }

  /** The names that occur, in the order of their first line. */
  function Names(ms: seq<Line>): seq<string> {
    if ms == [] then []
    else
      var names, name := Names(ms[..|ms| - 1]), ms[|ms| - 1].name;
      if name in names then names else names + [name]
  }

  function KindOf(info: string -> FileInfo, name: string): DsoType {
    if name == "[vdso]" then Vdso
    else match info(name)
      case ExecFile => Exec
      case DynFile(_) => Dyn
      case NotElf => Unknown
  }

  function TextOf(info: string -> FileInfo, name: string): Text {
    if KindOf(info, name).Dyn? && info(name).text.Some? then info(name).text.value else Text(0, 0)
  }

  function DsoFor(info: string -> FileInfo, ms: seq<Line>, name: string): Dso {
    var text := TextOf(info, name);
    Dso(name, RangesOf(ms, name), KindOf(info, name), text.addr, text.offset)
  }

  /** One DSO per name, with the ranges of its lines. */
  function DsosOf(info: string -> FileInfo, ms: seq<Line>): (r: seq<Dso>)
    ensures |r| == |Names(ms)|
    ensures forall i :: 0 <= i < |r| ==> r[i] == DsoFor(info, ms, Names(ms)[i])
  {
    seq(|Names(ms)|, i requires 0 <= i < |Names(ms)| => DsoFor(info, ms, Names(ms)[i]))
  }

  /** The file has its .text section where one is needed. */
  predicate Readable(info: string -> FileInfo, name: string) {
    KindOf(info, name).Dyn? ==> info(name).text.Some?
  }

  ghost predicate AllReadable(info: string -> FileInfo, ms: seq<Line>) {
    forall k :: 0 <= k < |ms| ==> Readable(info, ms[k].name)
  }

  lemma {:induction false} NamesAreThose(ms: seq<Line>)
    ensures forall i, j :: 0 <= i < j < |Names(ms)| ==> Names(ms)[i] != Names(ms)[j]
    ensures forall name :: name in Names(ms) <==> exists k :: 0 <= k < |ms| && ms[k].name == name
  {
    if ms != [] {
      var front, m := ms[..|ms| - 1], ms[|ms| - 1];
      NamesAreThose(front);
      forall name ensures name in Names(ms) <==> exists k :: 0 <= k < |ms| && ms[k].name == name {
        if name in Names(front) {
          var k :| 0 <= k < |front| && front[k].name == name;
          assert ms[k].name == name;
        }
        if k :| 0 <= k < |ms| && ms[k].name == name {
          if k < |front| {
            assert front[k].name == name;
          }
        }
      }
    }
  }

  /** The names come in the order in which they occur first: by the time an earlier one has occurred
      no later one has. */
  lemma {:induction false} NamesInOrder(ms: seq<Line>, i: nat, j: nat) returns (p: nat)
    requires i < j < |Names(ms)|
    ensures p < |ms| && ms[p].name == Names(ms)[i] && forall q :: 0 <= q <= p ==> ms[q].name != Names(ms)[j]
  {
    var front := ms[..|ms| - 1];
    if j < |Names(front)| {
      p := NamesInOrder(front, i, j);
      assert forall q :: 0 <= q <= p ==> front[q] == ms[q];
    } else {
      NamesAreThose(front);
      assert Names(front)[i] in Names(front);
      p :| 0 <= p < |front| && front[p].name == Names(front)[i];
      forall q | 0 <= q <= p ensures ms[q].name != Names(ms)[j] {
        assert front[q].name == ms[q].name;
      }
    }
  }

  function Named(name: string): (Line, nat) -> bool {
    (m: Line, p: nat) => m.name == name
  }

  function Extent(): Line -> Range {
    (m: Line) => Range(m.start, m.end, m.fileOff)
  }

  /** The ranges of a name are those of its lines, each exactly once and in the order of the lines. */
  lemma {:induction false} RangesInOrder(ms: seq<Line>, name: string) returns (idx: seq<nat>)
    ensures Selects(ms, Named(name), idx) && Picks(ms, Extent(), idx, RangesOf(ms, name))
  {
    if ms == [] {
      idx := [];
    } else {
      var n := |ms| - 1;
      var before := RangesInOrder(ms[..n], name);
      RangesNext(ms, name);
      idx := PickedNext(ms, Named(name), Extent(), before, RangesOf(ms[..n], name), RangesOf(ms, name));
    }
  }

  lemma RangesNext(ms: seq<Line>, name: string)
    requires ms != []
    ensures var n := |ms| - 1;
      RangesOf(ms, name) == if ms[n].name == name then RangesOf(ms[..n], name) + [Extent()(ms[n])] else RangesOf(ms[..n], name)
  {
  }

  lemma RangesAreThose(ms: seq<Line>, name: string)
    ensures forall r :: r in RangesOf(ms, name) <==> exists k: nat :: k < |ms| && ms[k].name == name && RangeOf(ms[k]) == r
  {
    var idx := RangesInOrder(ms, name);
    forall r ensures r in RangesOf(ms, name) <==> exists k: nat :: k < |ms| && ms[k].name == name && RangeOf(ms[k]) == r {
      PickedIff(ms, Named(name), Extent(), idx, RangesOf(ms, name), r);
      forall k: nat | k < |ms| ensures Extent()(ms[k]) == RangeOf(ms[k]) && (Named(name)(ms[k], k) <==> ms[k].name == name) {}
    }
  }

  /** A name that no line had so far has no ranges yet. */
  lemma NewNameNoRanges(ms: seq<Line>, name: string)
    requires name !in Names(ms)
    ensures RangesOf(ms, name) == []
  {
    NamesAreThose(ms);
    RangesAreThose(ms, name);
    if RangesOf(ms, name) != [] {
      assert RangesOf(ms, name)[0] in RangesOf(ms, name);
    }
  }

  // ----- What a file of mappings loads to

  /** An executable line with a name that starts with none of these. */
  predicate IsMapped(line: Line) {
    && line.exec && line.name != ""
    && forall p :: p in ["//anon", "/dev/zero", "/anon_hugepage", "[stack", "/SYSV", "[heap]", "[uprobes]", "[vsyscall]"] ==>
         !(p <= line.name)
  }

  lemma AcceptedIff(line: Line)
    ensures Accepted(line) <==> IsMapped(line)
  {
    var ps := ["//anon", "/dev/zero", "/anon_hugepage", "[stack", "/SYSV", "[heap]", "[uprobes]", "[vsyscall]"];
    assert ps[0] in ps && ps[1] in ps && ps[2] in ps && ps[3] in ps && ps[4] in ps && ps[5] in ps && ps[6] in ps && ps[7] in ps;
  }

  function MappedAs(name: string): (Line, nat) -> bool {
    (m: Line, p: nat) => IsMapped(m) && m.name == name
  }

  /** The DSO has, in order, the extents of exactly the mapped lines of its name, and its kind and
      .text position are those the file tells; the vDSO is known by its name. */
  ghost predicate LoadedFrom(info: string -> FileInfo, lines: seq<Line>, d: Dso) {
    && (exists idx :: Selects(lines, MappedAs(d.name), idx) && Picks(lines, Extent(), idx, d.ranges))
    && (if d.name == "[vdso]" then d.kind.Vdso?
        else if info(d.name).ExecFile? then d.kind.Exec?
        else if info(d.name).DynFile? then d.kind.Dyn? && info(d.name).text == Some(Text(d.shAddr, d.shOffset))
        else d.kind.Unknown?)
    && (!d.kind.Dyn? ==> d.shAddr == 0 && d.shOffset == 0)
  }

  /** One DSO for each name of a mapped line. */
  ghost predicate Loaded(info: string -> FileInfo, lines: seq<Line>, dsos: seq<Dso>) {
    && (forall i, j :: 0 <= i < j < |dsos| ==> dsos[i].name != dsos[j].name)
    && (forall i :: 0 <= i < |dsos| ==> LoadedFrom(info, lines, dsos[i]))
    && (forall n :: 0 <= n < |lines| && IsMapped(lines[n]) ==> exists i :: 0 <= i < |dsos| && dsos[i].name == lines[n].name)
  }

  /** A mapped shared object without a .text section is what makes loading fail. */
  ghost predicate HasUnreadable(info: string -> FileInfo, lines: seq<Line>) {
    exists n :: 0 <= n < |lines| && IsMapped(lines[n]) && lines[n].name != "[vdso]" && info(lines[n].name) == DynFile(None)
  }

  lemma {:induction false} AcceptedInOrder(lines: seq<Line>) returns (idx: seq<nat>)
    ensures Selects(lines, (m: Line, p: nat) => IsMapped(m), idx) && Picks(lines, (m: Line) => m, idx, AcceptedLines(lines))
  {
    if lines == [] {
      idx := [];
    } else {
      var n := |lines| - 1;
      var before := AcceptedInOrder(lines[..n]);
      AcceptedIff(lines[n]);
      AcceptedNext(lines, n);
      assert lines[..n + 1] == lines;
      idx := PickedNext(lines, (m: Line, p: nat) => IsMapped(m), (m: Line) => m, before, AcceptedLines(lines[..n]), AcceptedLines(lines));
    }
  }

  lemma AcceptedAreMapped(lines: seq<Line>)
    ensures forall m :: m in AcceptedLines(lines) <==> exists n: nat :: n < |lines| && IsMapped(lines[n]) && lines[n] == m
  {
    var idx := AcceptedInOrder(lines);
    var keep, image := (m: Line, p: nat) => IsMapped(m), (m: Line) => m;
    forall m ensures m in AcceptedLines(lines) <==> exists n: nat :: n < |lines| && IsMapped(lines[n]) && lines[n] == m {
      PickedIff(lines, keep, image, idx, AcceptedLines(lines), m);
      forall n: nat | n < |lines| ensures image(lines[n]) == lines[n] && (keep(lines[n], n) <==> IsMapped(lines[n])) {}
    }
  }

  lemma {:induction false} LoadedRanges(lines: seq<Line>, name: string) returns (idx: seq<nat>)
    ensures Selects(lines, MappedAs(name), idx) && Picks(lines, Extent(), idx, RangesOf(AcceptedLines(lines), name))
  {
    if lines == [] {
      idx := [];
    } else {
      var n := |lines| - 1;
      var before := LoadedRanges(lines[..n], name);
      LoadedRangesNext(lines, name);
      idx := PickedNext(lines, MappedAs(name), Extent(), before,
                        RangesOf(AcceptedLines(lines[..n]), name), RangesOf(AcceptedLines(lines), name));
    }
  }

  lemma LoadedRangesNext(lines: seq<Line>, name: string)
    requires lines != []
    ensures var n := |lines| - 1;
      var before := RangesOf(AcceptedLines(lines[..n]), name);
      RangesOf(AcceptedLines(lines), name) == if MappedAs(name)(lines[n], n) then before + [Extent()(lines[n])] else before
  {
    var n := |lines| - 1;
    AcceptedIff(lines[n]);
    AcceptedNext(lines, n);
    assert lines[..n + 1] == lines;
    if Accepted(lines[n]) {
      var ms := AcceptedLines(lines);
      assert ms[..|ms| - 1] == AcceptedLines(lines[..n]);
      RangesNext(ms, name);
    }
  }

  /** The grouping of the accepted lines is what the mapped lines load to. */
  lemma GroupingIsLoaded(info: string -> FileInfo, lines: seq<Line>)
    requires AllReadable(info, AcceptedLines(lines))
    ensures Loaded(info, lines, DsosOf(info, AcceptedLines(lines)))
  {
    var ms := AcceptedLines(lines);
    var dsos := DsosOf(info, ms);
    NamesAreThose(ms);
    AcceptedAreMapped(lines);
    forall i | 0 <= i < |dsos| ensures LoadedFrom(info, lines, dsos[i]) {
      var idx := LoadedRanges(lines, Names(ms)[i]);
      assert Names(ms)[i] in Names(ms);
      var k :| 0 <= k < |ms| && ms[k].name == Names(ms)[i];
      assert Readable(info, ms[k].name);
    }
    forall n | 0 <= n < |lines| && IsMapped(lines[n]) ensures exists i :: 0 <= i < |dsos| && dsos[i].name == lines[n].name {
      assert lines[n] in ms;
      var k :| 0 <= k < |ms| && ms[k] == lines[n];
      assert lines[n].name in Names(ms);
      var i :| 0 <= i < |Names(ms)| && Names(ms)[i] == lines[n].name;
      assert dsos[i].name == lines[n].name;
    }
  }

  lemma UnreadableIff(info: string -> FileInfo, lines: seq<Line>)
    ensures AllReadable(info, AcceptedLines(lines)) <==> !HasUnreadable(info, lines)
  {
    var ms := AcceptedLines(lines);
    AcceptedAreMapped(lines);
    if !AllReadable(info, ms) {
      var k :| 0 <= k < |ms| && !Readable(info, ms[k].name);
      assert ms[k] in ms;
    }
    if HasUnreadable(info, lines) {
      var n :| 0 <= n < |lines| && IsMapped(lines[n]) && lines[n].name != "[vdso]" && info(lines[n].name) == DynFile(None);
      assert lines[n] in ms;
      var k :| 0 <= k < |ms| && ms[k] == lines[n];
      assert !Readable(info, ms[k].name);
    }
  }

  lemma LoadingMeans(info: string -> FileInfo, lines: seq<Line>)
    ensures AllReadable(info, AcceptedLines(lines)) <==> !HasUnreadable(info, lines)
    ensures AllReadable(info, AcceptedLines(lines)) ==> Loaded(info, lines, DsosOf(info, AcceptedLines(lines)))
  {
    UnreadableIff(info, lines);
    if AllReadable(info, AcceptedLines(lines)) {
      GroupingIsLoaded(info, lines);
    }
  }

  /** After loading, an address lies strictly inside some range exactly when it lies strictly between
      the ends of some mapped line. */
  lemma LoadedLookupIff(info: string -> FileInfo, lines: seq<Line>, dsos: seq<Dso>, addr: U64)
    requires Loaded(info, lines, dsos)
    ensures OutsideAll(dsos, addr) <==> forall n :: 0 <= n < |lines| && IsMapped(lines[n]) ==> !(lines[n].start < addr < lines[n].end)
  {
    forall i | 0 <= i < |dsos| ensures Outside(dsos[i], addr) <==>
      forall n :: 0 <= n < |lines| && IsMapped(lines[n]) && lines[n].name == dsos[i].name ==> !(lines[n].start < addr < lines[n].end)
    {
      LoadedDsoIff(info, lines, dsos[i], addr);
    }
  }

  lemma LoadedDsoIff(info: string -> FileInfo, lines: seq<Line>, d: Dso, addr: U64)
    requires LoadedFrom(info, lines, d)
    ensures Outside(d, addr) <==>
      forall n :: 0 <= n < |lines| && IsMapped(lines[n]) && lines[n].name == d.name ==> !(lines[n].start < addr < lines[n].end)
  {
    var idx :| Selects(lines, MappedAs(d.name), idx) && Picks(lines, Extent(), idx, d.ranges);
    forall l | 0 <= l < |d.ranges| ensures Inside(d.ranges[l], addr) <==> lines[idx[l]].start < addr < lines[idx[l]].end {
      assert d.ranges[l] == Extent()(lines[idx[l]]);
    }
    forall n: nat | n < |lines| && IsMapped(lines[n]) && lines[n].name == d.name
      ensures exists l :: 0 <= l < |d.ranges| && idx[l] == n
    {
      assert MappedAs(d.name)(lines[n], n);
      var l :| 0 <= l < |idx| && idx[l] == n;
    }
    if Outside(d, addr) {
      forall n | 0 <= n < |lines| && IsMapped(lines[n]) && lines[n].name == d.name ensures !(lines[n].start < addr < lines[n].end) {
        var l :| 0 <= l < |d.ranges| && idx[l] == n;
        assert !Inside(d.ranges[l], addr);
      }
    } else {
      var l :| 0 <= l < |d.ranges| && Inside(d.ranges[l], addr);
      assert MappedAs(d.name)(lines[idx[l]], idx[l]);
    }
  }

  // ----- Where an address lies

  predicate Inside(r: Range, addr: U64) {
    r.start < addr < r.end
  }

  function OffsetIn(d: Dso, r: Range, addr: U64): U64 {
    if d.kind.Dyn? || d.kind.Vdso? then Add(Add(Sub(addr, r.start), r.fileOff), Sub(d.shAddr, d.shOffset))
    else addr
  }

  /** The first range, DSO by DSO, strictly inside of which the address lies. */
  ghost predicate Locates(dsos: seq<Dso>, addr: U64, i: nat, j: nat) {
    && i < |dsos| && j < |dsos[i].ranges| && Inside(dsos[i].ranges[j], addr)
    && (forall l :: 0 <= l < j ==> !Inside(dsos[i].ranges[l], addr))
    && (forall k :: 0 <= k < i ==> Outside(dsos[k], addr))
  }

  ghost predicate Outside(d: Dso, addr: U64) {
    forall l :: 0 <= l < |d.ranges| ==> !Inside(d.ranges[l], addr)
  }

  ghost predicate OutsideAll(dsos: seq<Dso>, addr: U64) {
    forall k :: 0 <= k < |dsos| ==> Outside(dsos[k], addr)
  }

  /** In a shared object and in the vDSO the offset is the distance from the start of the range, plus
      its file offset, plus the distance of .text from its file offset, in 64 bits; elsewhere it is
      the address. */
  lemma OffsetIs(d: Dso, r: Range, addr: U64)
    ensures OffsetIn(d, r, addr) ==
      if d.kind == Dyn || d.kind == Vdso then (addr - r.start + r.fileOff + d.shAddr - d.shOffset) % 0x1_0000_0000_0000_0000 else addr
  {
    SumWraps(addr - r.start, r.fileOff, d.shAddr - d.shOffset);
  }

  datatype Hit = Hit(dso: nat, offset: U64)

  class Syms {
    var dsos: seq<Dso>

    constructor ()
      ensures dsos == []
    {
      dsos := [];
    }

    method IndexByName(name: string) returns (i: nat)
      ensures i <= |dsos|
      ensures i < |dsos| ==> dsos[i].name == name
      ensures forall j :: 0 <= j < i ==> dsos[j].name != name
    {
      i := 0;
      while i < |dsos| && dsos[i].name != name
        invariant i <= |dsos|
        invariant forall j :: 0 <= j < i ==> dsos[j].name != name
      {
        i := i + 1;
      }
    }

    /** syms__add_dso. */
    method AddDso(info: string -> FileInfo, m: Line, ghost ms: seq<Line>) returns (ok: bool)
      requires dsos == DsosOf(info, ms) && AllReadable(info, ms)
      modifies this
      ensures ok <==> Readable(info, m.name)
      ensures ok ==> dsos == DsosOf(info, ms + [m])
    {
      NamesAreThose(ms);
      var i := IndexByName(m.name);
      if i == |dsos| {
        assert forall j :: 0 <= j < |dsos| ==> dsos[j].name == Names(ms)[j];
        NewNameNoRanges(ms, m.name);
        dsos := dsos + [Dso(m.name, [], Exec, 0, 0)];
      }
      var d := dsos[i].(ranges := dsos[i].ranges + [Range(m.start, m.end, m.fileOff)]);
      ok := true;
      if m.name == "[vdso]" {
        d := d.(kind := Vdso);
      } else {
        match info(m.name)
        case ExecFile => d := d.(kind := Exec);
        case DynFile(text) =>
          d := d.(kind := Dyn);
          if text.Some? {
            d := d.(shAddr := text.value.addr, shOffset := text.value.offset);
          } else {
            ok := false;
          }
        case NotElf => d := d.(kind := Unknown);
      }
      dsos := dsos[i := d];
      if ok {
        AddedLine(info, ms, m, i, dsos);
      }
    }

    /** The mappings of a process; on a failure everything is dropped. */
    method LoadMaps(info: string -> FileInfo, lines: seq<Line>) returns (ok: bool)
      requires dsos == []
      modifies this
      ensures ok <==> AllReadable(info, AcceptedLines(lines))
      ensures dsos == if ok then DsosOf(info, AcceptedLines(lines)) else []
      ensures ok <==> !HasUnreadable(info, lines)
      ensures ok ==> Loaded(info, lines, dsos)
    {
      ghost var before := [];
      for n := 0 to |lines|
        invariant before == AcceptedLines(lines[..n])
        invariant dsos == DsosOf(info, before) && AllReadable(info, before)
      {
        AcceptedNext(lines, n);
        if !lines[n].exec || !IsFileBacked(lines[n].name) {
          continue;
        }
        ok := AddDso(info, lines[n], before);
        if !ok {
          UnreadableLine(info, lines, n);
          LoadingMeans(info, lines);
          dsos := [];
          return;
        }
        before := before + [lines[n]];
      }
      assert lines[..|lines|] == lines;
      LoadingMeans(info, lines);
      return true;
    }

    /** syms__find_dso. */
    method FindDso(addr: U64) returns (hit: Option<Hit>)
      ensures hit.None? ==> OutsideAll(dsos, addr)
      ensures hit.Some? ==> exists j: nat ::
        Locates(dsos, addr, hit.value.dso, j) && hit.value.offset == OffsetIn(dsos[hit.value.dso], dsos[hit.value.dso].ranges[j], addr)
      ensures hit.None? <==> forall k, l :: 0 <= k < |dsos| && 0 <= l < |dsos[k].ranges| ==>
        addr <= dsos[k].ranges[l].start || addr >= dsos[k].ranges[l].end
    {
      for i := 0 to |dsos|
        invariant forall k :: 0 <= k < i ==> Outside(dsos[k], addr)
      {
        var d := dsos[i];
        for j := 0 to |d.ranges|
          invariant forall l :: 0 <= l < j ==> !Inside(d.ranges[l], addr)
        {
          var r := d.ranges[j];
          if addr <= r.start || addr >= r.end {
            continue;
          }
          var offset := addr;
          if d.kind.Dyn? || d.kind.Vdso? {
            offset := Add(Sub(addr, r.start), r.fileOff);
            offset := Add(offset, Sub(d.shAddr, d.shOffset));
          }
          assert Locates(dsos, addr, i, j);
          return Some(Hit(i, offset));
        }
      }
      return None;
    }
  }

  lemma AcceptedNext(lines: seq<Line>, n: nat)
    requires n < |lines|
    ensures AcceptedLines(lines[..n + 1])
         == if Accepted(lines[n]) then AcceptedLines(lines[..n]) + [lines[n]] else AcceptedLines(lines[..n])
  {
    assert lines[..n + 1][..n] == lines[..n];
  }

  lemma {:induction false} AcceptedPrefix(lines: seq<Line>, n: nat)
    requires n <= |lines|
    ensures AcceptedLines(lines[..n]) <= AcceptedLines(lines)
    decreases |lines|
  {
    if n == |lines| {
      assert lines[..n] == lines;
    } else {
      var front := lines[..|lines| - 1];
      AcceptedPrefix(front, n);
      assert front[..n] == lines[..n];
    }
  }

  lemma UnreadableLine(info: string -> FileInfo, lines: seq<Line>, n: nat)
    requires n < |lines| && Accepted(lines[n]) && !Readable(info, lines[n].name)
    ensures !AllReadable(info, AcceptedLines(lines))
  {
    AcceptedNext(lines, n);
    AcceptedPrefix(lines, n + 1);
    var k := |AcceptedLines(lines[..n])|;
    assert AcceptedLines(lines)[k] == lines[n];
  }

  /** Updating (or appending) the DSO of the line's name gives the grouping with that line. */
  lemma AddedLine(info: string -> FileInfo, ms: seq<Line>, m: Line, i: nat, dsos: seq<Dso>)
    requires i <= |Names(ms)| && (forall j :: 0 <= j < i ==> Names(ms)[j] != m.name)
    requires i < |Names(ms)| ==> Names(ms)[i] == m.name
    requires |dsos| == if i < |Names(ms)| then |Names(ms)| else |Names(ms)| + 1
    requires forall j :: 0 <= j < |Names(ms)| && j != i ==> dsos[j] == DsosOf(info, ms)[j]
    requires Readable(info, m.name) && dsos[i] == DsoFor(info, ms, m.name).(ranges := RangesOf(ms, m.name) + [RangeOf(m)])
    ensures dsos == DsosOf(info, ms + [m])
  {
    NamesAreThose(ms);
    var all := ms + [m];
    assert all[..|ms|] == ms;
    assert Names(all) == if i < |Names(ms)| then Names(ms) else Names(ms) + [m.name] by {
      assert i < |Names(ms)| <==> m.name in Names(ms);
    }
    forall j | 0 <= j < |dsos| ensures dsos[j] == DsoFor(info, all, Names(all)[j]) {
      if j != i {
        assert Names(ms)[j] != m.name;
        assert RangesOf(all, Names(ms)[j]) == RangesOf(ms, Names(ms)[j]);
      }
    }
  }

  // ----- Grouping preserves meaning

  ghost predicate DisjointLines(ms: seq<Line>) {
    forall k, l :: 0 <= k < l < |ms| ==> ms[k].end <= ms[l].start || ms[l].end <= ms[k].start
  }

  ghost predicate SomeLineInside(ms: seq<Line>, addr: U64) {
    exists k :: 0 <= k < |ms| && Inside(RangeOf(ms[k]), addr)
  }

  /** Every range of the grouping is a line of that name. */
  lemma RangeIsLine(info: string -> FileInfo, ms: seq<Line>, i: nat, j: nat) returns (k: nat)
    requires i < |DsosOf(info, ms)| && j < |DsosOf(info, ms)[i].ranges|
    ensures k < |ms| && ms[k].name == DsosOf(info, ms)[i].name && RangeOf(ms[k]) == DsosOf(info, ms)[i].ranges[j]
  {
    var name, r := Names(ms)[i], DsosOf(info, ms)[i].ranges[j];
    RangesAreThose(ms, name);
    assert r in RangesOf(ms, name);
    k :| 0 <= k < |ms| && ms[k].name == name && RangeOf(ms[k]) == r;
  }

  /** Every line is a range of the DSO of its name. */
  lemma LineIsRange(info: string -> FileInfo, ms: seq<Line>, k: nat) returns (i: nat, j: nat)
    requires k < |ms|
    ensures i < |DsosOf(info, ms)| && j < |DsosOf(info, ms)[i].ranges|
    ensures DsosOf(info, ms)[i].name == ms[k].name && DsosOf(info, ms)[i].ranges[j] == RangeOf(ms[k])
  {
    NamesAreThose(ms);
    RangesAreThose(ms, ms[k].name);
    assert ms[k].name in Names(ms);
    i :| 0 <= i < |Names(ms)| && Names(ms)[i] == ms[k].name;
    assert RangeOf(ms[k]) in RangesOf(ms, ms[k].name);
    j :| 0 <= j < |RangesOf(ms, ms[k].name)| && RangesOf(ms, ms[k].name)[j] == RangeOf(ms[k]);
  }

  /** The grouped search fails exactly when no line strictly contains the address. */
  lemma GroupedSearchFailsIff(info: string -> FileInfo, ms: seq<Line>, addr: U64)
    ensures OutsideAll(DsosOf(info, ms), addr) <==> !SomeLineInside(ms, addr)
  {
    var dsos := DsosOf(info, ms);
    if SomeLineInside(ms, addr) {
      var k :| 0 <= k < |ms| && Inside(RangeOf(ms[k]), addr);
      var i, j := LineIsRange(info, ms, k);
      assert !Outside(dsos[i], addr);
    } else {
      forall i, j | 0 <= i < |dsos| && 0 <= j < |dsos[i].ranges| ensures !Inside(dsos[i].ranges[j], addr) {
        var k := RangeIsLine(info, ms, i, j);
      }
    }
  }

  /** On disjoint mappings it finds the file and the range of the one line that contains the address. */
  lemma GroupedSearchIsDirect(info: string -> FileInfo, ms: seq<Line>, addr: U64, i: nat, j: nat, k: nat)
    requires DisjointLines(ms) && k < |ms| && Inside(RangeOf(ms[k]), addr)
    requires Locates(DsosOf(info, ms), addr, i, j)
    ensures DsosOf(info, ms)[i] == DsoFor(info, ms, ms[k].name)
    ensures DsosOf(info, ms)[i].ranges[j] == RangeOf(ms[k])
  {
    var l := RangeIsLine(info, ms, i, j);
  }
}
