/** `getColorForSong` of components/SongCard.tsx: a song id picks one of
    nine text colours by the sum of its UTF-16 code units modulo nine. */
module SongColor {

  /** A palette entry: the CSS class and the colour it sets. */
  datatype TextColor = TextColor(cls: string, color: string)

  /** `textColors`, in order. */
  const Palette: seq<TextColor> := [
    TextColor("text-[#ff6ec7]", "#ff6ec7"),
    TextColor("text-[#6ec7ff]", "#6ec7ff"),
    TextColor("text-[#b86ec7]", "#b86ec7"),
    TextColor("text-[#6effc7]", "#6effc7"),
    TextColor("text-[#ff9f6e]", "#ff9f6e"),
    TextColor("text-[#ffeb6e]", "#ffeb6e"),
    TextColor("text-[#6eff9f]", "#6eff9f"),
    TextColor("text-[#ff6e9f]", "#ff6e9f"),
    TextColor("text-[#9f6eff]", "#9f6eff")
  ]

  /** The sum of the UTF-16 code units that encode `c`: the code point
      itself in the Basic Multilingual Plane, otherwise its surrogate pair.
      `split('')` splits a string into code units and `charCodeAt(0)` reads
      one back. */
  function CodeUnits(c: char): (n: nat)
    ensures (c as int) < 0x1_0000 ==> n == c as int
    ensures (c as int) >= 0x1_0000 ==> 0xD800 + 0xDC00 <= n < 0xDC00 + 0xE000
  {
    var v := c as int;
    if v < 0x1_0000 then v
    else
      var u := v - 0x1_0000;
      (0xD800 + u / 0x400) + (0xDC00 + u % 0x400)
  }

  /** `songId.split('').reduce((acc, ch) => acc + ch.charCodeAt(0), 0)`. */
  function Hash(id: string): nat {
    if id == [] then 0 else CodeUnits(id[0]) + Hash(id[1..])
  }

  /** The palette index: always a valid index. */
  function ColorIndex(id: string): (i: nat)
    ensures i < |Palette|
    ensures i == Hash(id) % 9
  {
    Hash(id) % |Palette|
  }

  /** `getColorForSong`: the palette entry the hash selects. */
  function ColorForSong(id: string): (c: TextColor)
    ensures c in Palette
    ensures c == Palette[Hash(id) % 9]
  {
    Palette[ColorIndex(id)]
  }

  lemma {:induction false} HashConcat(a: string, b: string)
    ensures Hash(a + b) == Hash(a) + Hash(b)
    decreases |a|
  {
    if a == [] {
      assert a + b == b;
    } else {
      assert (a + b)[1..] == a[1..] + b;
      HashConcat(a[1..], b);
    }
  }

  /** The hash only depends on which characters occur how often. */
  lemma {:induction false} HashOfPermutation(a: string, b: string)
    requires multiset(a) == multiset(b)
    ensures Hash(a) == Hash(b)
    decreases |a|
  {
    if a != [] {
      assert a[0] in multiset(b);
      var k :| 0 <= k < |b| && b[k] == a[0];
      MultisetTail(a);
      MultisetWithout(b, k);
      HashOfPermutation(a[1..], b[..k] + b[k + 1..]);
      HashWithout(b, k);
    }
  }

  lemma MultisetTail(a: string)
    requires a != []
    ensures multiset(a[1..]) == multiset(a) - multiset{a[0]}
  {
    assert a == [a[0]] + a[1..];
  }

  lemma MultisetWithout(b: string, k: nat)
    requires k < |b|
    ensures multiset(b[..k] + b[k + 1..]) == multiset(b) - multiset{b[k]}
  {
    assert b == b[..k] + [b[k]] + b[k + 1..];
  }

  /** Taking one character out of an id takes its code units out of the hash. */
  lemma HashWithout(b: string, k: nat)
    requires k < |b|
    ensures Hash(b) == CodeUnits(b[k]) + Hash(b[..k] + b[k + 1..])
  {
    var front, back := b[..k], b[k + 1..];
    assert b == front + ([b[k]] + back);
    HashConcat(front, [b[k]] + back);
    assert ([b[k]] + back)[1..] == back;
    HashConcat(front, back);
  }

  /** Anagram ids share a colour. */
  lemma AnagramsShareColor(a: string, b: string)
    requires multiset(a) == multiset(b)
    ensures ColorForSong(a) == ColorForSong(b)
  {
    HashOfPermutation(a, b);
  }

  /** The empty id takes the first colour; "a" (code 97, 97 % 9 == 7) the
      eighth. */
  lemma Examples()
    ensures ColorForSong("") == TextColor("text-[#ff6ec7]", "#ff6ec7")
    ensures ColorForSong("a") == TextColor("text-[#ff6e9f]", "#ff6e9f")
  {
    assert Hash("a") == 97;
  }

  /** Outside the Basic Multilingual Plane the code units, not the code
      point, are summed: U+1F600 is 0xD83D + 0xDE00 = 112189, index 4,
      where its code point 128512 would give index 1. */
  lemma SurrogatePairExample()
    ensures Hash("\U{1F600}") == 0xD83D + 0xDE00
    ensures ColorForSong("\U{1F600}") == Palette[4]
  {
    assert Hash("\U{1F600}") == CodeUnits('\U{1F600}');
  }
}
