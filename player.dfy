/** The integer logic of the music player beside the puzzle: the playlist
    cursor that the next and previous buttons, a click on a listed song and
    the end of a song move; the four visible playlist entries; and the m:ss
    labels of the time display, on whole seconds. */
module Player {
  import opened Wrappers
  import opened Arith

  datatype Track = Track(title: string, url: string)

  /** The six tracks of the playlist, in order. */
  const Tracks: seq<Track> := [
    Track("Perfect", "https://ia600608.us.archive.org/13/items/its-you_202602/its-you.mp3"),
    Track("Iris", "https://ia600608.us.archive.org/13/items/its-you_202602/its-you.mp3"),
    Track("One More Hour", "https://ia600608.us.archive.org/13/items/its-you_202602/its-you.mp3"),
    Track("Night Changes", "https://ia600608.us.archive.org/13/items/its-you_202602/its-you.mp3"),
    Track("Photograph", "https://ia600608.us.archive.org/13/items/its-you_202602/its-you.mp3"),
    Track("Counting Stars", "https://archive.org/download/its-you_202602/its-you.mp3")
  ]

  /** How many playlist entries are on screen at once. */
  const VisibleCount: nat := 4

  // ---------------------------------------------------------------------
  // The cursor
  // ---------------------------------------------------------------------

  /** The cursor after "next" (and after a song ends): one further on,
      wrapping from the last track to the first. */
  function NextIndex(i: nat, len: nat): (r: nat)
    requires len > 0
    ensures r < len
    ensures i < len ==> r == if i == len - 1 then 0 else i + 1
  {
    if i < len - 1 then DivModUnique(len, 0, i + 1); (i + 1) % len
    else if i == len - 1 then DivModUnique(len, 1, 0); (i + 1) % len
    else (i + 1) % len
  }

  /** The cursor after "previous": one back, wrapping from the first track
      to the last. The source adds the length before taking the remainder,
      so the operand is never negative and JavaScript's truncating `%`
      agrees with Dafny's. */
  function PrevIndex(i: nat, len: nat): (r: nat)
    requires len > 0
    ensures r < len
    ensures i < len ==> r == if i == 0 then len - 1 else i - 1
  {
    if i == 0 then DivModUnique(len, 0, len - 1); (i - 1 + len) % len
    else if i < len then DivModUnique(len, 1, i - 1); (i - 1 + len) % len
    else (i - 1 + len) % len
  }

  /** "Previous" undoes "next" and "next" undoes "previous". */
  lemma PrevUndoesNext(i: nat, len: nat)
    requires i < len
    ensures PrevIndex(NextIndex(i, len), len) == i
    ensures NextIndex(PrevIndex(i, len), len) == i
  {
  }

  /** `k` presses of "next" from `i`. */
  function NextPresses(i: nat, len: nat, k: nat): (r: nat)
    requires len > 0
    ensures r < len
  {
    if k == 0 then i % len else NextIndex(NextPresses(i, len, k - 1), len)
  }

  /** Pressing "next" k times moves the cursor to (i + k) mod len; in
      particular len presses bring it back to where it was. */
  lemma {:induction false} NextPressesMod(i: nat, len: nat, k: nat)
    requires len > 0
    ensures NextPresses(i, len, k) == (i + k) % len
  {
    if k > 0 {
      NextPressesMod(i, len, k - 1);
      ModSucc(i + k - 1, len);
    }
  }

  // ---------------------------------------------------------------------
  // The visible window
  // ---------------------------------------------------------------------

  /** One listed song: the track index it stands for, its title, and whether
      it is highlighted as the one playing. */
  datatype Entry = Entry(index: nat, title: string, active: bool)

  /** The entries the playlist shows for cursor `start`: the tracks at
      (start + i) mod len for i = 0..3, the first one active. */
  function Window(start: nat, tracks: seq<Track>): (w: seq<Entry>)
    requires |tracks| > 0
    ensures |w| == VisibleCount
    ensures forall i :: 0 <= i < |w| ==>
      w[i].index < |tracks| && w[i].title == tracks[w[i].index].title
    ensures forall i :: 0 <= i < |w| ==> (w[i].active <==> i == 0)
  {
    seq(VisibleCount, i requires 0 <= i < VisibleCount =>
      var idx := (start + i) % |tracks|;
      Entry(idx, tracks[idx].title, i == 0))
  }

  /** The window starts at the cursor and each entry is the one "next" would
      select after the entry before it. */
  lemma WindowFollowsNext(start: nat, tracks: seq<Track>)
    requires start < |tracks|
    ensures Window(start, tracks)[0].index == start
    ensures forall i :: 0 <= i < VisibleCount - 1 ==>
      Window(start, tracks)[i + 1].index == NextIndex(Window(start, tracks)[i].index, |tracks|)
  {
    var w := Window(start, tracks);
    DivModUnique(|tracks|, 0, start);
    forall i | 0 <= i < VisibleCount - 1
      ensures w[i + 1].index == NextIndex(w[i].index, |tracks|)
    {
      ModSucc(start + i, |tracks|);
    }
  }

  /** After "next" the list scrolls up by one: the new window's first three
      entries are the old window's last three tracks. */
  lemma WindowScrollsOnNext(start: nat, tracks: seq<Track>)
    requires start < |tracks|
    ensures forall i :: 0 <= i < VisibleCount - 1 ==>
      Window(NextIndex(start, |tracks|), tracks)[i].index == Window(start, tracks)[i + 1].index
  {
    var len := |tracks|;
    var w, w' := Window(start, tracks), Window(NextIndex(start, len), tracks);
    forall i | 0 <= i < VisibleCount - 1
      ensures w'[i].index == w[i + 1].index
    {
      calc {
        w'[i].index;
        (NextIndex(start, len) + i) % len;
        ((start + 1) % len + i) % len;
        { ModAddLeft(start + 1, i, len); }
        (start + 1 + i) % len;
        w[i + 1].index;
      }
    }
  }

  /** With at least four tracks the window shows four different songs. */
  lemma WindowDistinct(start: nat, tracks: seq<Track>)
    requires |tracks| >= VisibleCount
    ensures forall i, j :: 0 <= i < j < VisibleCount ==>
      Window(start, tracks)[i].index != Window(start, tracks)[j].index
  {
    var w := Window(start, tracks);
    forall i, j | 0 <= i < j < VisibleCount
      ensures w[i].index != w[j].index
    {
      ModDistinct(start + i, start + j, |tracks|);
    }
  }

  /** With fewer than four tracks the window wraps round and lists the
      current song again after the last one. */
  lemma WindowWraps(start: nat, tracks: seq<Track>)
    requires start < |tracks| < VisibleCount
    ensures Window(start, tracks)[|tracks|].index == start
  {
    DivModUnique(|tracks|, 1, start);
  }

  /** The shipped playlist: four distinct songs on screen, whatever the
      cursor. */
  lemma ShippedWindowDistinct(start: nat)
    ensures forall i, j :: 0 <= i < j < VisibleCount ==>
      Window(start, Tracks)[i].index != Window(start, Tracks)[j].index
  {
    WindowDistinct(start, Tracks);
  }

  // ---------------------------------------------------------------------
  // The cursor as state
  // ---------------------------------------------------------------------

  /** The playlist: the track list and the cursor `startIndex`, which names
      both the song playing and the first visible entry. */
  class Playlist {
    const tracks: seq<Track>
    var startIndex: nat

    ghost predicate Valid()
      reads this
    {
      |tracks| > 0 && startIndex < |tracks|
    }

    /** The page opens with the first track under the cursor. */
    constructor (tracks: seq<Track>)
      requires |tracks| > 0
      ensures Valid() && this.tracks == tracks && startIndex == 0
    {
      this.tracks := tracks;
      startIndex := 0;
    }

    /** The "next" button, and the end of the playing song. */
    method Next()
      requires Valid()
      modifies this`startIndex
      ensures Valid() && startIndex == NextIndex(old(startIndex), |tracks|)
    {
      startIndex := (startIndex + 1) % |tracks|;
    }

    /** The "previous" button. */
    method Prev()
      requires Valid()
      modifies this`startIndex
      ensures Valid() && startIndex == PrevIndex(old(startIndex), |tracks|)
    {
      startIndex := (startIndex - 1 + |tracks|) % |tracks|;
    }

    /** A click on visible entry i: the cursor jumps to the track it lists,
      which is then the first entry of the new window. */
    method Select(i: nat)
      requires Valid() && i < VisibleCount
      modifies this`startIndex
      ensures Valid() && startIndex == Window(old(startIndex), tracks)[i].index
      ensures Window(startIndex, tracks)[0].index == startIndex
    {
      startIndex := Window(startIndex, tracks)[i].index;
      WindowFollowsNext(startIndex, tracks);
    }
  }

  // ---------------------------------------------------------------------
  // The time label
  // ---------------------------------------------------------------------

  predicate IsDigit(c: char) {
    '0' <= c <= '9'
  }

  predicate AllDigits(s: string) {
    forall i :: 0 <= i < |s| ==> IsDigit(s[i])
  }

  function DigitChar(d: nat): (c: char)
    requires d < 10
    ensures IsDigit(c) && DigitValue(c) == d
  {
    ('0' as int + d) as char
  }

  /** The value of a decimal digit (0 for any other character). */
  function DigitValue(c: char): (d: nat)
    ensures d < 10
  {
    if IsDigit(c) then c as int - '0' as int else 0
  }

  /** The decimal numeral of a natural number, as `toString` and template
      interpolation write it: no sign, no leading zero. */
  function NatToString(x: nat): (r: string)
    ensures |r| >= 1 && AllDigits(r)
    ensures x < 10 <==> |r| == 1
    ensures 10 <= x < 100 ==> |r| == 2
    ensures |r| > 1 ==> r[0] != '0'
    decreases x
  {
    if x < 10 then [DigitChar(x)]
    else NatToString(x / 10) + [DigitChar(x % 10)]
  }

  /** The value of the first k digits of s. */
  function ParsePrefix(s: string, k: nat): nat
    requires k <= |s|
  {
    if k == 0 then 0 else ParsePrefix(s, k - 1) * 10 + DigitValue(s[k - 1])
  }

  /** The value of a string of decimal digits. */
  function ParseNat(s: string): nat {
    ParsePrefix(s, |s|)
  }

  /** What follows a prefix does not change the prefix's value. */
  lemma {:induction false} ParsePrefixAppend(a: string, b: string, k: nat)
    requires k <= |a|
    ensures ParsePrefix(a + b, k) == ParsePrefix(a, k)
  {
    if k > 0 {
      ParsePrefixAppend(a, b, k - 1);
      assert (a + b)[k - 1] == a[k - 1];
    }
  }

  /** Reading a numeral back gives the number. */
  lemma {:induction false} ParseNatToString(x: nat)
    ensures ParseNat(NatToString(x)) == x
    decreases x
  {
    if x >= 10 {
      var a := NatToString(x / 10);
      ParseNatToString(x / 10);
      var d := DigitChar(x % 10);
      ParsePrefixAppend(a, [d], |a|);
      assert (a + [d])[|a|] == d;
      assert NatToString(x) == a + [d];
      assert ParseNat(a + [d]) == ParsePrefix(a + [d], |a|) * 10 + DigitValue(d);
    } else {
      var r := NatToString(x);
      assert r == [DigitChar(x)];
      assert ParsePrefix(r, 1) == ParsePrefix(r, 0) * 10 + DigitValue(r[0]);
    }
  }

  /** `k` copies of `c`. */
  function Repeat(c: char, k: nat): (r: string)
    ensures |r| == k && forall i :: 0 <= i < k ==> r[i] == c
  {
    seq(k, _ => c)
  }

  /** String `padStart` with a one-character pad: copies of `pad` in front
      of `s` until it is `width` long; a longer `s` is left as it is. */
  function PadStart(s: string, width: nat, pad: char): (r: string)
    ensures |r| == if |s| >= width then |s| else width
    ensures r[|r| - |s|..] == s
    ensures forall i :: 0 <= i < |r| - |s| ==> r[i] == pad
  {
    if |s| >= width then s else Repeat(pad, width - |s|) + s
  }

  /** A run of zeros is worth nothing. */
  lemma {:induction false} ParsePrefixZeros(z: string, s: string, i: nat)
    requires z == Repeat('0', |z|) && i <= |z|
    ensures ParsePrefix(z + s, i) == 0
  {
    if i > 0 {
      ParsePrefixZeros(z, s, i - 1);
      assert (z + s)[i - 1] == '0';
    }
  }

  /** Leading zeros leave the value of what follows them alone. */
  lemma {:induction false} ParsePrefixAfterZeros(z: string, s: string, j: nat)
    requires z == Repeat('0', |z|) && j <= |s|
    ensures ParsePrefix(z + s, |z| + j) == ParsePrefix(s, j)
  {
    if j > 0 {
      ParsePrefixAfterZeros(z, s, j - 1);
      assert (z + s)[|z| + j - 1] == s[j - 1];
    } else {
      ParsePrefixZeros(z, s, |z|);
    }
  }

  /** Padding a numeral with zeros keeps its digits and its value. */
  lemma ParseNatPadZeros(s: string, width: nat)
    requires AllDigits(s)
    ensures AllDigits(PadStart(s, width, '0'))
    ensures ParseNat(PadStart(s, width, '0')) == ParseNat(s)
  {
    if |s| < width {
      var z := Repeat('0', width - |s|);
      ParsePrefixAfterZeros(z, s, |s|);
    }
  }

  /** The player's time label for `sec` whole seconds: the minutes, a colon,
      and the seconds within the minute padded to two digits. */
  function FormatTime(sec: nat): (r: string)
    ensures |r| >= 4 && r[|r| - 3] == ':'
    ensures sec < 600 ==> |r| == 4
  {
    var q, x := Minutes(sec), Seconds(sec);
    SecondsField(x);
    LabelParts(NatToString(q), PadStart(NatToString(x), 2, '0'));
    ShortLabel(q, x);
    NatToString(q) + ":" + PadStart(NatToString(x), 2, '0')
  }

  /** `Math.floor(sec / 60)`: a single digit under ten minutes. */
  function Minutes(sec: nat): (q: nat)
    ensures sec < 600 ==> q < 10
  {
    OneDigitMinutes(sec);
    sec / 60
  }

  /** `sec % 60`: the seconds within the minute. */
  function Seconds(sec: nat): (x: nat)
    ensures x < 60 && Minutes(sec) * 60 + x == sec
  {
    sec % 60
  }

  /** Under ten minutes the minutes field is a single digit. */
  lemma OneDigitMinutes(sec: nat)
    ensures sec < 600 ==> sec / 60 < 10
  {
    var q := sec / 60;
    if q >= 10 {
      MulMono(10, q, 60);
    }
  }

  /** The seconds field: two digits whose value is the seconds. */
  lemma SecondsField(x: nat)
    requires x < 60
    ensures var s := PadStart(NatToString(x), 2, '0');
      |s| == 2 && AllDigits(s) && ParseNat(s) == x
  {
    ParseNatToString(x);
    ParseNatPadZeros(NatToString(x), 2);
  }

  /** The pieces of a label m:ss sit at fixed offsets from its end. */
  lemma LabelParts(m: string, s: string)
    requires |s| == 2
    ensures var r := m + ":" + s;
      |r| == |m| + 3 && r[|r| - 3] == ':' && r[..|r| - 3] == m && r[|r| - 2..] == s
  {
    var r := m + ":" + s;
    assert r[..|r| - 3] == m && r[|r| - 2..] == s;
  }

  /** Under ten minutes the label is four characters long. */
  lemma ShortLabel(q: nat, x: nat)
    requires x < 60
    ensures q < 10 ==> |NatToString(q) + ":" + PadStart(NatToString(x), 2, '0')| == 4
  {
    SecondsField(x);
  }

  /** The value of a minutes field and a seconds field: a numeral, and two
      digits worth less than 60. */
  function ParseFields(m: string, s: string): Option<nat> {
    if |m| >= 1 && |s| == 2 && AllDigits(m) && AllDigits(s) && ParseNat(s) < 60
    then Some(ParseNat(m) * 60 + ParseNat(s))
    else None
  }

  /** Reads an m:ss label. */
  function ParseTime(t: string): Option<nat> {
    if |t| < 4 || t[|t| - 3] != ':' then None
    else ParseFields(t[..|t| - 3], t[|t| - 2..])
  }

  /** Reading a label m:ss splits it at the colon. */
  lemma ParseTimeOfLabel(m: string, s: string)
    requires |m| >= 1 && |s| == 2
    ensures ParseTime(m + ":" + s) == ParseFields(m, s)
  {
    LabelParts(m, s);
  }

  /** The label says exactly `sec`: its minutes times 60 plus its two-digit
      seconds, below 60, give `sec` back. */
  lemma FormatTimeRoundTrip(sec: nat)
    ensures ParseTime(FormatTime(sec)) == Some(sec)
  {
    var q, r := Minutes(sec), Seconds(sec);
    var m := NatToString(q);
    var s := PadStart(NatToString(r), 2, '0');
    assert FormatTime(sec) == m + ":" + s;
    SecondsField(r);
    ParseNatToString(q);
    ParseTimeOfLabel(m, s);
    FieldsValue(m, s, q, r);
  }

  /** A numeral worth q and two digits worth r < 60 read as q * 60 + r. */
  lemma FieldsValue(m: string, s: string, q: nat, r: nat)
    requires |m| >= 1 && AllDigits(m) && ParseNat(m) == q
    requires |s| == 2 && AllDigits(s) && ParseNat(s) == r && r < 60
    ensures ParseFields(m, s) == Some(q * 60 + r)
  {
  }
}
