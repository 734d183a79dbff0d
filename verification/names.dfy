/** Names derived from other names: a device name from a device node path,
    the device-mapper names of volume groups and logical volumes, and the
    colon-separated `wwid` of a multipath device.
 */
module Names {
  import opened Outcomes
  import Text

  // -----------------------------------------------------------------------
  // Device node paths

  /** `devicePathToName`: drop a leading "/dev/", then a leading
      "mapper/". */
  function DevicePathToName(path: string): (name: string)
    ensures Text.StartsWith(path, "/dev/mapper/") ==> name == path[12..]
    ensures Text.StartsWith(path, "/dev/") && !Text.StartsWith(path[5..], "mapper/") ==> name == path[5..]
    ensures !Text.StartsWith(path, "/dev/") && Text.StartsWith(path, "mapper/") ==> name == path[7..]
    ensures !Text.StartsWith(path, "/dev/") && !Text.StartsWith(path, "mapper/") ==> name == path
  {
    var name := if Text.StartsWith(path, "/dev/") then path[5..] else path;
    assert Text.StartsWith(path, "/dev/mapper/") ==> path[5..][..7] == "mapper/" by {
      if Text.StartsWith(path, "/dev/mapper/") {
        assert path[5..][..7] == path[..12][5..];
      }
    }
    if Text.StartsWith(name, "mapper/") then name[7..] else name
  }

  /** The name of a node under /dev is recovered from its path, and so is
      the name of a device-mapper node under /dev/mapper. */
  lemma DevicePathToNameInverts(name: string)
    ensures !Text.StartsWith(name, "mapper/") ==> DevicePathToName("/dev/" + name) == name
    ensures DevicePathToName("/dev/mapper/" + name) == name
  {
    assert ("/dev/" + name)[..5] == "/dev/";
    assert ("/dev/" + name)[5..] == name;
    assert ("/dev/mapper/" + name)[..12] == "/dev/mapper/";
    assert ("/dev/mapper/" + name)[12..] == name;
  }

  // -----------------------------------------------------------------------
  // Device-mapper names

  /** `name.replace("-", "--")`: every dash doubled. */
  function DoubleDashes(s: string): (r: string)
    ensures |r| >= |s|
  {
    if |s| == 0 then ""
    else if s[0] == '-' then "--" + DoubleDashes(s[1..])
    else [s[0]] + DoubleDashes(s[1..])
  }

  /** The result of reading a mangled name from the front: the name read
      back, and what follows the first lone dash, if there is one. */
  datatype Unmangled = Unmangled(name: string, rest: Option<string>)

  /** The reading a device-mapper name is made for: a doubled dash stands
      for one dash, and a lone dash separates the group's part from the
      volume's. */
  function Unmangle(s: string): Unmangled {
    if |s| == 0 then Unmangled("", None)
    else if s[0] == '-' && |s| >= 2 && s[1] == '-' then
      var u := Unmangle(s[2..]);
      u.(name := "-" + u.name)
    else if s[0] == '-' then Unmangled("", Some(s[1..]))
    else
      var u := Unmangle(s[1..]);
      u.(name := [s[0]] + u.name)
  }

  /** A doubled name reads back whole, whatever follows it. */
  lemma {:induction false} UnmangleDoubled(s: string, tail: string)
    ensures Unmangle(DoubleDashes(s) + tail)
         == Unmangle(tail).(name := s + Unmangle(tail).name)
  {
    if |s| > 0 {
      UnmangleDoubled(s[1..], tail);
      var y := DoubleDashes(s[1..]) + tail;
      if s[0] == '-' {
        assert DoubleDashes(s) + tail == "--" + y;
        UnmangleDash(y);
      } else {
        assert DoubleDashes(s) + tail == [s[0]] + y;
        UnmangleChar(s[0], y);
      }
      assert s == [s[0]] + s[1..];
    } else {
      assert DoubleDashes(s) + tail == tail;
    }
  }

  lemma UnmangleDash(y: string)
    ensures Unmangle("--" + y) == Unmangle(y).(name := "-" + Unmangle(y).name)
  {
    assert ("--" + y)[2..] == y;
  }

  lemma UnmangleChar(c: char, y: string)
    requires c != '-'
    ensures Unmangle([c] + y) == Unmangle(y).(name := [c] + Unmangle(y).name)
  {
    assert ([c] + y)[1..] == y;
  }

  /** A volume group's `mapName`. */
  function VgMapName(vgName: string): (r: string)
    ensures Unmangle(r) == Unmangled(vgName, None)
  {
    UnmangleDoubled(vgName, "");
    assert DoubleDashes(vgName) + "" == DoubleDashes(vgName);
    DoubleDashes(vgName)
  }

  /** A logical volume's `name`: the group's name, a dash, its own. */
  function LvName(vgName: string, lvName: string): (r: string)
    ensures |r| == |vgName| + 1 + |lvName|
    ensures r[..|vgName|] == vgName && r[|vgName|] == '-' && r[|vgName| + 1..] == lvName
  {
    vgName + "-" + lvName
  }

  /** A logical volume's `mapName`: both names with their dashes doubled,
      joined by a lone dash. */
  function LvMapName(vgName: string, lvName: string): (r: string)
    ensures |lvName| == 0 || lvName[0] != '-' ==> Unmangle(r) == Unmangled(vgName, Some(DoubleDashes(lvName)))
  {
    var d := DoubleDashes(lvName);
    UnmangleDoubled(vgName, "-" + d);
    assert VgMapName(vgName) + "-" + d == DoubleDashes(vgName) + ("-" + d);
    assert |lvName| == 0 || lvName[0] != '-' ==> Unmangle("-" + d) == Unmangled("", Some(d)) by {
      assert ("-" + d)[1..] == d;
    }
    assert vgName + "" == vgName;
    VgMapName(vgName) + "-" + d
  }

  /** The group and volume a device-mapper name stands for, when it reads
      as exactly one lone dash between two doubled names. */
  function ParseMapName(m: string): Option<(string, string)> {
    var first := Unmangle(m);
    if first.rest.None? then None
    else
      var second := Unmangle(first.rest.value);
      if second.rest.Some? then None else Some((first.name, second.name))
  }

  /** The device-mapper name of a logical volume reads back as its group
      and volume names, as long as the volume name does not start with a
      dash. */
  lemma ParseLvMapName(vgName: string, lvName: string)
    requires |lvName| == 0 || lvName[0] != '-'
    ensures ParseMapName(LvMapName(vgName, lvName)) == Some((vgName, lvName))
  {
    var d := DoubleDashes(lvName);
    assert Unmangle(LvMapName(vgName, lvName)) == Unmangled(vgName, Some(d));
    UnmangleDoubled(lvName, "");
    assert d + "" == d && lvName + "" == lvName;
  }

  /** Distinct logical volumes never share a device-mapper name, when no
      volume name starts with a dash. */
  lemma LvMapNameInjective(vg1: string, lv1: string, vg2: string, lv2: string)
    requires |lv1| == 0 || lv1[0] != '-'
    requires |lv2| == 0 || lv2[0] != '-'
    requires LvMapName(vg1, lv1) == LvMapName(vg2, lv2)
    ensures vg1 == vg2 && lv1 == lv2
  {
    ParseLvMapName(vg1, lv1);
    ParseLvMapName(vg2, lv2);
  }

  /** The plain `name` does not tell group and volume apart, which is why
      the device-mapper name doubles the dashes; and a volume name that
      starts with a dash defeats the doubling too. */
  lemma NameCollisions()
    ensures LvName("a-b", "c") == LvName("a", "b-c")
    ensures LvMapName("a-b", "c") != LvMapName("a", "b-c")
    ensures LvMapName("a-", "b") == LvMapName("a", "-b")
  {
    DoubledPair('a', 'b');
    DoubledPair('b', 'c');
    DoubledOne('a');
    DoubledOne('b');
    DoubledOne('c');
    MapNameOf("a-b", "c", "a--b-c");
    MapNameOf("a", "b-c", "a-b--c");
    assert "a--b-c"[2] != "a-b--c"[2];
    MapNameOf("a-", "b", "a---b");
    MapNameOf("a", "-b", "a---b");
  }

  lemma DoubledOne(c: char)
    requires c != '-'
    ensures DoubleDashes([c]) == [c] && DoubleDashes([c, '-']) == [c, '-', '-'] && DoubleDashes(['-', c]) == ['-', '-', c]
  {
    assert [c][1..] == [] && [c, '-'][1..] == ['-'] && ['-'][1..] == [] && ['-', c][1..] == [c];
  }

  lemma DoubledPair(c: char, e: char)
    requires c != '-' && e != '-'
    ensures DoubleDashes([c, '-', e]) == [c, '-', '-', e]
  {
    DoubledOne(e);
    assert [c, '-', e][1..] == ['-', e];
  }

  lemma MapNameOf(vgName: string, lvName: string, m: string)
    requires DoubleDashes(vgName) + "-" + DoubleDashes(lvName) == m
    ensures LvMapName(vgName, lvName) == m
  {
    assert VgMapName(vgName) == DoubleDashes(vgName);
  }

  // -----------------------------------------------------------------------
  // Multipath identities

  /** The identity cut into groups of two characters, the last one shorter
      when the length is odd. */
  function Pairs(s: string): (r: seq<string>)
    ensures forall k :: 0 <= k < |r| ==> 0 < |r[k]| <= 2
    ensures forall k :: 0 <= k < |r| - 1 ==> |r[k]| == 2
    ensures Concat(r) == s
  {
    if |s| == 0 then []
    else if |s| == 1 then [s]
    else
      var rest := Pairs(s[2..]);
      assert s == s[..2] + s[2..];
      [s[..2]] + rest
  }

  /** The groups one after another. */
  function Concat(ws: seq<string>): string {
    if |ws| == 0 then "" else ws[0] + Concat(ws[1..])
  }

  /** `sep.join(ws)`. */
  function JoinWith(ws: seq<string>, sep: char): string {
    if |ws| == 0 then "" else if |ws| == 1 then ws[0] else ws[0] + [sep] + JoinWith(ws[1..], sep)
  }

  const NO_IDENTITY_MSG := "setupIdentityFromInfo() has not been called."

  /** `wwid`: the identity in groups of two joined by colons; reading the
      identity before it is set up fails.  Every third character is a
      colon, and the others are the identity's characters in order.
      `None` stands for an identity that was never set up (the source's
      missing `_identity` attribute), not for an identity set to `None`,
      which Python joins into the empty string, `Some("")` here. */
  function Wwid(identity: Option<string>): (r: Result<string>)
    ensures r.Err? <==> identity.None?
    ensures r.Err? ==> r.error == RuntimeError(NO_IDENTITY_MSG)
    ensures r.Ok? ==> Grouped(identity.value, r.value)
  {
    if identity.None? then Err(RuntimeError(NO_IDENTITY_MSG))
    else
      var w := JoinWith(Pairs(identity.value), ':');
      GroupedShape(identity.value);
      Ok(w)
  }

  /** `w` is `s` in groups of two with a colon after each full group but
      the last: empty for an empty `s`, else one colon per two characters
      after the first, every third character a colon, and the others the
      characters of `s` in order. */
  predicate Grouped(s: string, w: string) {
    && (|s| == 0 ==> w == "")
    && (|s| > 0 ==> |w| == |s| + (|s| - 1) / 2)
    && forall j :: 0 <= j < |w| ==>
         if j % 3 == 2 then w[j] == ':'
         else 2 * (j / 3) + j % 3 < |s| && w[j] == s[2 * (j / 3) + j % 3]
  }

  /** The shape of the grouped identity. */
  lemma {:induction false} GroupedShape(s: string)
    ensures Grouped(s, JoinWith(Pairs(s), ':'))
  {
    var w := JoinWith(Pairs(s), ':');
    if |s| <= 2 {
      if |s| == 2 {
        assert Pairs(s) == [s[..2]] + Pairs(s[2..]);
        assert Pairs(s[2..]) == [];
        assert s[..2] == s;
      }
    } else {
      var rest := s[2..];
      GroupedShape(rest);
      var w' := JoinWith(Pairs(rest), ':');
      assert Pairs(s) == [s[..2]] + Pairs(rest);
      assert |Pairs(rest)| > 0;
      assert w == s[..2] + [':'] + w';
      GroupedCons(s, w');
    }
  }

  /** One more group in front of a grouped identity. */
  lemma GroupedCons(s: string, w': string)
    requires |s| > 2 && Grouped(s[2..], w')
    ensures Grouped(s, s[..2] + [':'] + w')
  {
    var w := s[..2] + [':'] + w';
    forall j | 0 <= j < |w|
      ensures if j % 3 == 2 then w[j] == ':'
              else 2 * (j / 3) + j % 3 < |s| && w[j] == s[2 * (j / 3) + j % 3]
    {
      if j >= 3 {
        ShiftThree(j);
        assert w[j] == w'[j - 3];
      }
    }
  }

  lemma ShiftThree(j: int)
    requires j >= 3
    ensures (j - 3) / 3 == j / 3 - 1 && (j - 3) % 3 == j % 3
  {
  }

  /** Every character but `c`. */
  function Strip(s: string, c: char): (r: string)
    ensures forall k :: 0 <= k < |r| ==> r[k] != c
  {
    if |s| == 0 then ""
    else if s[0] == c then Strip(s[1..], c)
    else [s[0]] + Strip(s[1..], c)
  }

  lemma {:induction false} StripConcat(a: string, b: string, c: char)
    ensures Strip(a + b, c) == Strip(a, c) + Strip(b, c)
  {
    if |a| > 0 {
      assert (a + b)[0] == a[0] && (a + b)[1..] == a[1..] + b;
      StripConcat(a[1..], b, c);
    } else {
      assert a + b == b;
    }
  }

  lemma {:induction false} StripAbsent(s: string, c: char)
    requires forall k :: 0 <= k < |s| ==> s[k] != c
    ensures Strip(s, c) == s
  {
    if |s| > 0 {
      StripAbsent(s[1..], c);
      assert s == [s[0]] + s[1..];
    }
  }

  /** Dropping the separators of a join leaves the pieces one after
      another, when no piece holds the separator. */
  lemma {:induction false} StripJoin(ws: seq<string>, sep: char)
    requires forall k, j :: 0 <= k < |ws| && 0 <= j < |ws[k]| ==> ws[k][j] != sep
    ensures Strip(JoinWith(ws, sep), sep) == Concat(ws)
  {
    if |ws| == 1 {
      StripAbsent(ws[0], sep);
      assert Concat(ws) == ws[0] + Concat(ws[1..]);
      assert ws[0] + "" == ws[0];
    } else if |ws| > 1 {
      StripJoin(ws[1..], sep);
      StripAbsent(ws[0], sep);
      StripConcat(ws[0] + [sep], JoinWith(ws[1..], sep), sep);
      StripConcat(ws[0], [sep], sep);
      assert Strip([sep], sep) == "";
      assert ws[0] + "" == ws[0];
    }
  }

  /** Dropping the colons of a `wwid` gives back the identity, when the
      identity holds no colon. */
  lemma WwidStripsBack(identity: string)
    requires forall k :: 0 <= k < |identity| ==> identity[k] != ':'
    ensures Wwid(Some(identity)).Ok?
    ensures Strip(Wwid(Some(identity)).value, ':') == identity
  {
    var pairs := Pairs(identity);
    forall k, j | 0 <= k < |pairs| && 0 <= j < |pairs[k]|
      ensures pairs[k][j] != ':'
    {
      PairsInside(identity, k, j);
    }
    StripJoin(pairs, ':');
  }

  /** Each character of a group is a character of the identity. */
  lemma {:induction false} PairsInside(s: string, k: nat, j: nat)
    requires k < |Pairs(s)| && j < |Pairs(s)[k]|
    ensures 2 * k + j < |s| && Pairs(s)[k][j] == s[2 * k + j]
  {
    if |s| > 1 && k > 0 {
      PairsInside(s[2..], k - 1, j);
    }
  }
}
