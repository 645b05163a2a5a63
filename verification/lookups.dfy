/** The two lookup tables of the replay parser: player colors by RGB value,
    and English names of maps whose stored name is Korean. */
module Lookups {
  import opened Numerals

  /** Player colors, keyed by the upper-case hexadecimal `RRGGBB` rendering
      of a color. Each key is written as the components its six digits spell;
      `PaletteKeyText` states the six-digit key text of every entry. */
  const Colors: map<string, string> := map[
      ColorKey(0xB4, 0x14, 0x1E) := "Red",
      ColorKey(0x00, 0x42, 0xFF) := "Blue",
      ColorKey(0x1C, 0xA7, 0xEA) := "Teal",
      ColorKey(0xEB, 0xE1, 0x29) := "Yellow",
      ColorKey(0x54, 0x00, 0x81) := "Purple",
      ColorKey(0xFE, 0x8A, 0x0E) := "Orange",
      ColorKey(0x16, 0x80, 0x00) := "Green",
      ColorKey(0xCC, 0xA6, 0xFC) := "Light pink",
      ColorKey(0x1F, 0x01, 0xC9) := "Violet",
      ColorKey(0x52, 0x54, 0x94) := "Light grey",
      ColorKey(0x10, 0x62, 0x46) := "Dark green",
      ColorKey(0x4E, 0x2A, 0x04) := "Brown",
      ColorKey(0x96, 0xFF, 0x91) := "Light green",
      ColorKey(0x23, 0x23, 0x23) := "Dark grey",
      ColorKey(0xE5, 0x5B, 0xB0) := "Pink"
    ]

  /** `"%(r)02X%(g)02X%(b)02X"`: the color key of an RGB triple. */
  function ColorKey(r: nat, g: nat, b: nat): string {
    Hex2(r) + Hex2(g) + Hex2(b)
  }

  /** The color name of a player: the palette's name for the key, or the key
      itself when the palette has none. */
  function ColorName(r: nat, g: nat, b: nat): (name: string)
    ensures ColorKey(r, g, b) in Colors ==> name == Colors[ColorKey(r, g, b)]
    ensures ColorKey(r, g, b) !in Colors ==> name == ColorKey(r, g, b)
  {
    var key := ColorKey(r, g, b);
    if key in Colors then Colors[key] else key
  }

  /** The color key of three components below 256 is six digits, two per
      component, each pair reading back as its component; a wider component
      makes the key longer. */
  lemma ColorKeyRoundTrip(r: nat, g: nat, b: nat)
    ensures |ColorKey(r, g, b)| == 6 <==> r < 256 && g < 256 && b < 256
    ensures |ColorKey(r, g, b)| == 6 ==>
      var key := ColorKey(r, g, b);
      && NumeralValue(key[0..2], Sixteen) == r
      && NumeralValue(key[2..4], Sixteen) == g
      && NumeralValue(key[4..6], Sixteen) == b
  {
    var key := ColorKey(r, g, b);
    if |key| == 6 {
      Hex2RoundTrip(r);
      Hex2RoundTrip(g);
      Hex2RoundTrip(b);
      assert key[0..2] == Hex2(r) && key[2..4] == Hex2(g) && key[4..6] == Hex2(b);
    }
  }

  /** Distinct colors with components below 256 have distinct keys, whatever
      the other color is. */
  lemma ColorKeyInjective(r: nat, g: nat, b: nat, r': nat, g': nat, b': nat)
    requires r' < 256 && g' < 256 && b' < 256
    requires ColorKey(r, g, b) == ColorKey(r', g', b')
    ensures r == r' && g == g' && b == b'
  {
    ColorKeyRoundTrip(r, g, b);
    ColorKeyRoundTrip(r', g', b');
  }

  /** The key of a color with byte components, digit by digit. */
  lemma KeyDigits(r: nat, g: nat, b: nat)
    requires r < 256 && g < 256 && b < 256
    ensures ColorKey(r, g, b) == [DigitChar(r / 16), DigitChar(r % 16), DigitChar(g / 16),
                                  DigitChar(g % 16), DigitChar(b / 16), DigitChar(b % 16)]
  {
    Hex2Digits(r);
    Hex2Digits(g);
    Hex2Digits(b);
  }

  /** The keys of the palette as the replay format writes them: the
      components written in the table render to exactly these six digits. */
  lemma PaletteKeyText()
    ensures ColorKey(0xB4, 0x14, 0x1E) == "B4141E"
    ensures ColorKey(0x00, 0x42, 0xFF) == "0042FF"
    ensures ColorKey(0x1C, 0xA7, 0xEA) == "1CA7EA"
    ensures ColorKey(0xEB, 0xE1, 0x29) == "EBE129"
    ensures ColorKey(0x54, 0x00, 0x81) == "540081"
    ensures ColorKey(0xFE, 0x8A, 0x0E) == "FE8A0E"
    ensures ColorKey(0x16, 0x80, 0x00) == "168000"
    ensures ColorKey(0xCC, 0xA6, 0xFC) == "CCA6FC"
    ensures ColorKey(0x1F, 0x01, 0xC9) == "1F01C9"
    ensures ColorKey(0x52, 0x54, 0x94) == "525494"
    ensures ColorKey(0x10, 0x62, 0x46) == "106246"
    ensures ColorKey(0x4E, 0x2A, 0x04) == "4E2A04"
    ensures ColorKey(0x96, 0xFF, 0x91) == "96FF91"
    ensures ColorKey(0x23, 0x23, 0x23) == "232323"
    ensures ColorKey(0xE5, 0x5B, 0xB0) == "E55BB0"
  {
    KeyDigits(0xB4, 0x14, 0x1E);
    KeyDigits(0x00, 0x42, 0xFF);
    KeyDigits(0x1C, 0xA7, 0xEA);
    KeyDigits(0xEB, 0xE1, 0x29);
    KeyDigits(0x54, 0x00, 0x81);
    KeyDigits(0xFE, 0x8A, 0x0E);
    KeyDigits(0x16, 0x80, 0x00);
    KeyDigits(0xCC, 0xA6, 0xFC);
    KeyDigits(0x1F, 0x01, 0xC9);
    KeyDigits(0x52, 0x54, 0x94);
    KeyDigits(0x10, 0x62, 0x46);
    KeyDigits(0x4E, 0x2A, 0x04);
    KeyDigits(0x96, 0xFF, 0x91);
    KeyDigits(0x23, 0x23, 0x23);
    KeyDigits(0xE5, 0x5B, 0xB0);
  }

  /** Contrapositive of `ColorKeyInjective`. */
  lemma KeysDiffer(r: nat, g: nat, b: nat, r': nat, g': nat, b': nat)
    requires r' < 256 && g' < 256 && b' < 256
    requires r != r' || g != g' || b != b'
    ensures ColorKey(r, g, b) != ColorKey(r', g', b')
  {
    if ColorKey(r, g, b) == ColorKey(r', g', b') {
      ColorKeyInjective(r, g, b, r', g', b');
    }
  }

  /** The palette's red is named: no other entry shares its key. */
  lemma RedNamed()
    ensures ColorName(0xB4, 0x14, 0x1E) == "Red"
  {
    KeysDiffer(0xB4, 0x14, 0x1E, 0x00, 0x42, 0xFF);
    KeysDiffer(0xB4, 0x14, 0x1E, 0x1C, 0xA7, 0xEA);
    KeysDiffer(0xB4, 0x14, 0x1E, 0xEB, 0xE1, 0x29);
    KeysDiffer(0xB4, 0x14, 0x1E, 0x54, 0x00, 0x81);
    KeysDiffer(0xB4, 0x14, 0x1E, 0xFE, 0x8A, 0x0E);
    KeysDiffer(0xB4, 0x14, 0x1E, 0x16, 0x80, 0x00);
    KeysDiffer(0xB4, 0x14, 0x1E, 0xCC, 0xA6, 0xFC);
    KeysDiffer(0xB4, 0x14, 0x1E, 0x1F, 0x01, 0xC9);
    KeysDiffer(0xB4, 0x14, 0x1E, 0x52, 0x54, 0x94);
    KeysDiffer(0xB4, 0x14, 0x1E, 0x10, 0x62, 0x46);
    KeysDiffer(0xB4, 0x14, 0x1E, 0x4E, 0x2A, 0x04);
    KeysDiffer(0xB4, 0x14, 0x1E, 0x96, 0xFF, 0x91);
    KeysDiffer(0xB4, 0x14, 0x1E, 0x23, 0x23, 0x23);
    KeysDiffer(0xB4, 0x14, 0x1E, 0xE5, 0x5B, 0xB0);
  }

  /** A color outside the palette shows its key, each component as two
      upper-case, zero-padded digits. */
  lemma UnnamedShowsKey()
    ensures ColorName(0x01, 0x02, 0x03) == "010203"
  {
    KeysDiffer(0x01, 0x02, 0x03, 0xB4, 0x14, 0x1E);
    KeysDiffer(0x01, 0x02, 0x03, 0x00, 0x42, 0xFF);
    KeysDiffer(0x01, 0x02, 0x03, 0x1C, 0xA7, 0xEA);
    KeysDiffer(0x01, 0x02, 0x03, 0xEB, 0xE1, 0x29);
    KeysDiffer(0x01, 0x02, 0x03, 0x54, 0x00, 0x81);
    KeysDiffer(0x01, 0x02, 0x03, 0xFE, 0x8A, 0x0E);
    KeysDiffer(0x01, 0x02, 0x03, 0x16, 0x80, 0x00);
    KeysDiffer(0x01, 0x02, 0x03, 0xCC, 0xA6, 0xFC);
    KeysDiffer(0x01, 0x02, 0x03, 0x1F, 0x01, 0xC9);
    KeysDiffer(0x01, 0x02, 0x03, 0x52, 0x54, 0x94);
    KeysDiffer(0x01, 0x02, 0x03, 0x10, 0x62, 0x46);
    KeysDiffer(0x01, 0x02, 0x03, 0x4E, 0x2A, 0x04);
    KeysDiffer(0x01, 0x02, 0x03, 0x96, 0xFF, 0x91);
    KeysDiffer(0x01, 0x02, 0x03, 0x23, 0x23, 0x23);
    KeysDiffer(0x01, 0x02, 0x03, 0xE5, 0x5B, 0xB0);
    KeyDigits(0x01, 0x02, 0x03);
  }

  /** A color with a component of 256 or more is never in the palette, whose
      keys are all six digits long, so it always shows its (longer) key. */
  lemma WideComponentFallsBack(r: nat, g: nat, b: nat)
    requires r >= 256 || g >= 256 || b >= 256
    ensures ColorName(r, g, b) == ColorKey(r, g, b)
    ensures |ColorName(r, g, b)| > 6
  {
    ColorKeyRoundTrip(r, g, b);
    assert forall k | k in Colors :: |k| == 6;
  }

  /** English names of maps, keyed by their Korean names. */
  const KoreanMapNames: map<string, string> := map[
      "아그리아 골짜기" := "Agria Valley",
      "폭염 사막" := "Blistering Sands",
      "십자포화" := "Crossfire",
      "사막 오아시스" := "Desert Oasis",
      "소각 지대" := "Incineration Zone",
      "밀림 분지" := "Jungle Basin",
      "고물 처리장" := "Junk Yard",
      "폭염 사막 초보자용" := "Novice Blistering Sands",
      "사막 오아시스 초보자용" := "Novice Desert Oasis",
      "전쟁 초원 초보자용" := "Novice Steppes of War",
      "고철 처리장" := "Scrap Station",
      "전쟁 초원" := "Steppes of War",
      "젤나가 동굴" := "Xel'Naga Caverns",
      "엘리시움" := "Elysium",
      "메마른 황무지" := "Arid Wastes",
      "델타 사분면" := "Delta Quadrant",
      "불협화음 IV" := "Discord IV",
      "고궤도" := "High Orbit",
      "쿨라스 협곡" := "Kulas Ravine",
      "잃어버린 사원" := "Lost Temple",
      "금속도시" := "Metalopolis",
      "몬리스 마루" := "Monlyth Ridge",
      "불협화음 IV 초보자용" := "Novice Discord IV",
      "쿨라스 협곡 초보자용" := "Novice Kulas Ravine",
      "금속도시 초보자용" := "Novice Metalopolis",
      "몬리스 마루 초보자용" := "Novice Monlyth Ridge",
      "황혼 요새 초보자용" := "Novice Twilight Fortress",
      "잿더미 안식처" := "Scorched Haven",
      "샤쿠라스 고원" := "Shakuras Plateau",
      "타소니스 공습" := "Tarsonis Assault",
      "황혼 요새" := "Twilight Fortress",
      "전쟁 지역" := "War Zone",
      "아라칸 요새 " := "Arakan Citadel",
      "426 거주지" := "Colony 426",
      "발굴지" := "Dig Site",
      "변경 지대" := "Frontier",
      "계절풍 지대" := "Monsoon",
      "모래늪" := "Quicksand",
      "생체 실험실" := "The Bio Lab",
      "티폰" := "Typhon",
      "울란의 심연" := "Ulaan Deeps",
      "심연" := "Abyss",
      "절멸" := "Extinction",
      "고지대" := "High Ground",
      "용암 흐름" := "Lava Flow",
      "메가톤" := "Megaton",
      "전초 기지" := "Outpost",
      "모래 협곡" := "Sand Canyon",
      "폭풍우 전장" := "Tempest",
      "독지대" := "Toxic Slums"
    ]

  /** The map name as shown: a Korean name gets its English name appended in
      parentheses; any other name is kept. */
  function LocalisedMapName(name: string): (shown: string)
    ensures name in KoreanMapNames ==> shown == name + " (" + KoreanMapNames[name] + ")"
    ensures name !in KoreanMapNames ==> shown == name
  {
    if name in KoreanMapNames then name + " (" + KoreanMapNames[name] + ")" else name
  }

  /** The name changes exactly when it is a Korean name of the table, and then
      only by a suffix: the stored name is always a prefix of the shown one. */
  lemma TranslatedExactlyWhenKorean(name: string)
    ensures LocalisedMapName(name) != name <==> name in KoreanMapNames
    ensures name <= LocalisedMapName(name)
  {
    var shown := LocalisedMapName(name);
    if name in KoreanMapNames {
      assert |shown| > |name|;
    }
  }

  /** The Korean name of Toxic Slums is translated. */
  lemma ToxicSlums()
    ensures LocalisedMapName("독지대") == "독지대 (Toxic Slums)"
  {
  }
}
