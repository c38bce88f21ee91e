/** What the header fields and the file names read off them mean, against the layout that writes them. */
module MemberNames {
  import opened ByteStreams
  import opened UstarArchives

  const DOT: Byte := 46

  // The last component of a path.

  /** Slashes and `.` components only, as may follow the last component. */
  predicate Trailing(tail: Bytes) {
    tail == []
    || (tail[0] == SLASH
        && (Trailing(tail[1..]) || (|tail| > 1 && tail[1] == DOT && Trailing(tail[2..]))))
  }

  predicate IsComponent(base: Bytes) {
    base != [] && base != [DOT] && SLASH !in base
  }

  predicate IsDirectory(dir: Bytes) {
    dir == [] || dir[|dir| - 1] == SLASH
  }

  /** `path` is `base`, below any directory and before nothing but slashes and `.` components. */
  predicate EndsIn(path: Bytes, dir: Bytes, base: Bytes, tail: Bytes) {
    path == dir + base + tail && IsDirectory(dir) && IsComponent(base) && Trailing(tail)
  }

  /** The name of a path: its last component, or nothing when it has none. */
  ghost predicate IsNameOf(base: Bytes, path: Bytes) {
    if base == [] then Trailing([SLASH] + path) else exists dir, tail :: EndsIn(path, dir, base, tail)
  }

  function Closed(open: Bytes, name: Bytes): Bytes {
    if open == [] || open == [DOT] then name else open
  }

  lemma {:induction false} FinalOfTrailing(tail: Bytes, open: Bytes, name: Bytes)
    requires Trailing(tail) && SLASH !in open && SLASH !in name
    ensures FinalComponent(tail, open, name) == Closed(open, name)
  {
    if tail != [] {
      var closed := Closed(open, name);
      if Trailing(tail[1..]) {
        FinalOfTrailing(tail[1..], [], closed);
      } else {
        assert tail[1..][0] == DOT && tail[1..][1..] == tail[2..];
        assert FinalComponent(tail[1..], [], closed) == FinalComponent(tail[2..], [DOT], closed);
        FinalOfTrailing(tail[2..], [DOT], closed);
      }
    }
  }

  lemma {:induction false} FinalThrough(part: Bytes, rest: Bytes, open: Bytes, name: Bytes)
    requires SLASH !in part && SLASH !in open && SLASH !in name
    ensures FinalComponent(part + rest, open, name) == FinalComponent(rest, open + part, name)
  {
    if part == [] {
      assert part + rest == rest && open + part == open;
    } else {
      var first := [part[0]];
      FinalThrough(part[1..], rest, open + first, name);
      assert part == first + part[1..] && (part + rest)[1..] == part[1..] + rest;
      assert open + first + part[1..] == open + part;
    }
  }

  lemma {:induction false} FinalBelow(dir: Bytes, rest: Bytes, open: Bytes, name: Bytes) returns (before: Bytes)
    requires dir != [] && dir[|dir| - 1] == SLASH && SLASH !in open && SLASH !in name
    ensures SLASH !in before
    ensures FinalComponent(dir + rest, open, name) == FinalComponent(rest, [], before)
  {
    assert (dir + rest)[1..] == dir[1..] + rest;
    if dir[0] == SLASH {
      if |dir| == 1 {
        assert dir[1..] + rest == rest;
        before := Closed(open, name);
      } else {
        before := FinalBelow(dir[1..], rest, [], Closed(open, name));
      }
    } else {
      before := FinalBelow(dir[1..], rest, open + [dir[0]], name);
    }
  }

  /** The final component of a path is its base, whatever directory it lies in and whatever trails it. */
  lemma FinalIsBase(path: Bytes, dir: Bytes, base: Bytes, tail: Bytes)
    requires EndsIn(path, dir, base, tail)
    ensures FinalComponent(path, [], []) == base
  {
    assert path == dir + (base + tail);
    var before: Bytes := [];
    if dir == [] {
      assert path == base + tail;
    } else {
      before := FinalBelow(dir, base + tail, [], []);
    }
    FinalThrough(base, tail, [], before);
    assert [] + base == base;
    FinalOfTrailing(tail, base, before);
  }

  lemma {:induction false} TrailingGrows(tail: Bytes, open: Bytes)
    requires Trailing(tail) && tail != [] && tail[|tail| - 1] == SLASH && (open == [] || open == [DOT])
    ensures Trailing(tail + open) && Trailing(tail + open + [SLASH])
  {
    var rest := tail[1..];
    var grown, closed := tail + open, tail + open + [SLASH];
    assert grown[1..] == rest + open && closed[1..] == rest + open + [SLASH];
    if rest == [] {
      assert Trailing([SLASH][1..]) && Trailing([SLASH]);
      assert rest + open == open && open + [SLASH] == rest + open + [SLASH];
      if open == [DOT] {
        assert grown[2..] == [] && closed[2..] == [SLASH];
      }
    } else if Trailing(rest) {
      TrailingGrows(rest, open);
    } else {
      TrailingGrows(tail[2..], open);
      assert grown[2..] == tail[2..] + open && closed[2..] == tail[2..] + open + [SLASH];
    }
  }

  /** `name` is the last component of the directory `dir`, so far as it has one. */
  ghost predicate LastOf(dir: Bytes, name: Bytes) {
    IsDirectory(dir) && IsNameOf(name, dir)
  }

  /** Closing the component `open` after `dir`, at the end of the path or at a slash. */
  lemma Closes(dir: Bytes, open: Bytes, name: Bytes)
    requires LastOf(dir, name) && SLASH !in open
    ensures IsNameOf(Closed(open, name), dir + open) && LastOf(dir + open + [SLASH], Closed(open, name))
  {
    var path, closed := dir + open, dir + open + [SLASH];
    if open != [] && open != [DOT] {
      assert Trailing([]) && Trailing([SLASH][1..]) && Trailing([SLASH]);
      assert EndsIn(path, dir, open, []) && EndsIn(closed, dir, open, [SLASH]);
    } else if name == [] {
      TrailingGrows([SLASH] + dir, open);
      assert [SLASH] + dir + open == [SLASH] + path && [SLASH] + path + [SLASH] == [SLASH] + closed;
    } else {
      var below, tail :| EndsIn(dir, below, name, tail);
      var end := name + tail;
      assert dir == below + end && dir[|dir| - 1] == end[|end| - 1];
      assert name[|name| - 1] in name;
      TrailingGrows(tail, open);
      assert EndsIn(path, below, name, tail + open) && EndsIn(closed, below, name, tail + open + [SLASH]);
    }
  }

  lemma {:induction false} FinalAfter(dir: Bytes, open: Bytes, name: Bytes, path: Bytes)
    requires LastOf(dir, name) && SLASH !in open && SLASH !in name
    ensures IsNameOf(FinalComponent(path, open, name), dir + open + path)
    decreases |path|
  {
    hide IsNameOf, LastOf;
    Closes(dir, open, name);
    if path == [] {
      assert dir + open + path == dir + open;
    } else if path[0] == SLASH {
      FinalAfter(dir + open + [SLASH], [], Closed(open, name), path[1..]);
      assert dir + open + [SLASH] + [] + path[1..] == dir + open + path;
    } else {
      FinalAfter(dir, open + [path[0]], name, path[1..]);
      assert dir + (open + [path[0]]) + path[1..] == dir + open + path;
    }
  }

  /** Every member is delivered under the name of its path, and a path has no other. */
  lemma FileNameIsName(header: Block, base: Bytes)
    ensures FileName(header) == base <==> IsNameOf(base, NameField(header))
  {
    var path := NameField(header);
    assert Trailing([SLASH][1..]) && Trailing([SLASH]) && [SLASH] + [] == [SLASH];
    FinalAfter([], [], [], path);
    assert [] + [] + path == path;
    if IsNameOf(base, path) {
      if base == [] {
        assert ([SLASH] + path)[1..] == path;
        NamelessIsEmpty(path);
      } else {
        var dir, tail :| EndsIn(path, dir, base, tail);
        FinalIsBase(path, dir, base, tail);
      }
    }
  }

  lemma NamelessIsEmpty(path: Bytes)
    requires Trailing([SLASH] + path)
    ensures FinalComponent(path, [], []) == []
  {
    var tail := [SLASH] + path;
    assert tail[1..] == path;
    FinalOfTrailing(tail, [], []);
  }

  /** `file` is what a regular member of the archive carries, whole, under the name of its path. */
  ghost predicate Carries(e: Entry, file: OutputFile) {
    IsRegular(e.header) && file.data == e.data && IsNameOf(file.filename, NameField(e.header))
  }

  lemma {:induction false} DeliveredAreCarried(entries: seq<Entry>)
    ensures forall file | file in Deliver(entries) :: exists e | e in entries :: Carries(e, file)
  {
    if entries != [] {
      DeliveredAreCarried(entries[1..]);
      FileNameIsName(entries[0].header, FileName(entries[0].header));
      forall file | file in Deliver(entries) ensures exists e | e in entries :: Carries(e, file) {
        if file in Deliver(entries[1..]) {
          var e :| e in entries[1..] && Carries(e, file);
          assert e in entries;
        } else {
          assert file in Output(entries[0]);
          assert Carries(entries[0], file);
        }
      }
    }
  }

  // The header fields, as an archive writer lays them out.

  function OctalText(n: nat): (text: Bytes)
    ensures text != [] && forall d | d in text :: 48 <= d < 56
  {
    if n < 8 then [48 + n] else OctalText(n / 8) + [48 + n % 8]
  }

  /** A ustar header of this name, size and type; the other fields may hold anything. */
  predicate LaidOut(header: Block, name: Bytes, size: nat, kind: Byte) {
    && 0 !in name && |name| <= 100 && |OctalText(size)| <= 11
    && header[..100] == name + Zeros(100 - |name|)
    && header[124..136] == OctalText(size) + Zeros(12 - |OctalText(size)|)
    && header[156] == kind
  }

  lemma {:induction false} OctalThrough(a: Bytes, b: Bytes, value: nat)
    ensures Octal(a + b, value) == Octal(b, Octal(a, value))
  {
    if a == [] {
      assert a + b == b;
    } else {
      assert (a + b)[1..] == a[1..] + b;
      OctalThrough(a[1..], b, if 48 <= a[0] < 56 then 8 * value + (a[0] - 48) else value);
    }
  }

  lemma {:induction false} OctalOf(n: nat)
    ensures Octal(OctalText(n), 0) == n
  {
    if n >= 8 {
      OctalOf(n / 8);
      OctalThrough(OctalText(n / 8), [48 + n % 8], 0);
    }
    assert forall d: Byte, v: nat | 48 <= d < 56 :: Octal([d], v) == 8 * v + (d - 48);
  }

  lemma {:induction false} TextOfField(text: Bytes, n: nat)
    requires 0 !in text
    ensures UpToNul(text + Zeros(n)) == text
  {
    if text == [] {
      assert text + Zeros(n) == Zeros(n);
    } else {
      TextOfField(text[1..], n);
      assert (text + Zeros(n))[1..] == text[1..] + Zeros(n);
      assert text[0] in text;
    }
  }

  /** The fields read are the ones written. */
  lemma HeaderReadsBack(header: Block, name: Bytes, size: nat, kind: Byte)
    requires LaidOut(header, name, size, kind)
    ensures NameField(header) == name && SizeField(header) == size
    ensures IsRegular(header) <==>
            kind == '0' as int || kind == '7' as int || (kind == 0 && !(name != [] && name[|name| - 1] == '/' as int))
  {
    TextOfField(name, 100 - |name|);
    TextOfField(OctalText(size), 12 - |OctalText(size)|);
    OctalOf(size);
  }
}
