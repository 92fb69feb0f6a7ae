/** The wheel of factor: steps that skip the multiples of 2, 3, 5, 7 and 11. */
module Wheel {

  const WHEEL_START := 5
  const WHEEL_ROWS := 24
  const WHEEL_SIZE := 485

  /** Divisible by one of the primes of the wheel. */
  predicate Small(k: nat)
  {
    k % 2 == 0 || OddSmall(k)
  }

  predicate OddSmall(k: nat)
  {
    k % 3 == 0 || k % 5 == 0 || k % 7 == 0 || k % 11 == 0
  }

  /** Every second number between two others is divisible by one of the odd primes. */
  predicate AllSmall(from: nat, to: nat)
    decreases if from < to then to - from else 0
  {
    from + 2 >= to || (OddSmall(from + 2) && AllSmall(from + 2, to))
  }

  /** From one odd number to another only multiples of the primes are skipped. */
  lemma {:induction false} Skipped(from: nat, to: nat, k: nat)
    requires AllSmall(from, to) && from % 2 == 1 && from < k < to
    ensures Small(k)
    decreases if from < to then to - from else 0
  {
    if k % 2 == 1 && k != from + 2 { Skipped(from + 2, to, k); }
  }

  /** A step that fits three bits when halved, and skips only such numbers. */
  predicate Step(from: nat, to: nat)
  {
    2 <= to - from <= 14 && (to - from) % 2 == 0 && AllSmall(from, to)
  }

  /** Where the steps of a row from the i-th on lead. */
  ghost predicate Walk(s: seq<nat>, i: nat, from: nat, to: nat)
    requires i <= |s|
    decreases |s| - i
  {
    if i == |s| then from == to else Step(from, from + s[i]) && Walk(s, i + 1, from + s[i], to)
  }

  lemma WalkEnd(s: seq<nat>, to: nat)
    ensures Walk(s, |s|, to, to)
  {
  }

  ghost predicate Fits(s: seq<nat>, i: nat, a: nat, b: nat, c: nat, d: nat, e: nat, f: nat)
    requires i + 5 <= |s|
  {
    && a + s[i] == b && b + s[i + 1] == c && c + s[i + 2] == d && d + s[i + 3] == e && e + s[i + 4] == f
    && Step(a, b) && Step(b, c) && Step(c, d) && Step(d, e) && Step(e, f)
  }

  /** Five steps by way of the given positions. */
  lemma Five(s: seq<nat>, i: nat, a: nat, b: nat, c: nat, d: nat, e: nat, f: nat, to: nat)
    requires i + 5 <= |s| && Walk(s, i + 5, f, to)
    requires Fits(s, i, a, b, c, d, e, f)
    ensures Walk(s, i, a, to)
  {
    hide AllSmall;
    assert Walk(s, i + 4, e, to);
    assert Walk(s, i + 3, d, to);
    assert Walk(s, i + 2, c, to);
    assert Walk(s, i + 1, b, to);
  }

  function Row0(): (s: seq<nat>)
    ensures |s| == 20
  {
    [4, 2, 4, 6, 2, 6, 4, 2, 4, 6, 6, 2, 6, 4, 2, 6, 4, 6, 8, 4]
  }

  lemma Walk0()
    ensures Walk(Row0(), 0, 13, 101)
  {
    hide Walk;
    WalkEnd(Row0(), 101);
    Five(Row0(), 15, 73, 79, 83, 89, 97, 101, 101);
    Five(Row0(), 10, 53, 59, 61, 67, 71, 73, 101);
    Five(Row0(), 5, 31, 37, 41, 43, 47, 53, 101);
    Five(Row0(), 0, 13, 17, 19, 23, 29, 31, 101);
  }

  function Row1(): (s: seq<nat>)
    ensures |s| == 20
  {
    [2, 4, 2, 4,14, 4, 6, 2,10, 2, 6, 6, 4, 2, 4, 6, 2,10, 2, 4]
  }

  lemma Walk1()
    ensures Walk(Row1(), 0, 101, 197)
  {
    hide Walk;
    WalkEnd(Row1(), 197);
    Five(Row1(), 15, 173, 179, 181, 191, 193, 197, 197);
    Five(Row1(), 10, 151, 157, 163, 167, 169, 173, 197);
    Five(Row1(), 5, 127, 131, 137, 139, 149, 151, 197);
    Five(Row1(), 0, 101, 103, 107, 109, 113, 127, 197);
  }

  function Row2(): (s: seq<nat>)
    ensures |s| == 20
  {
    [2,12,10, 2, 4, 2, 4, 6, 2, 6, 4, 6, 6, 6, 2, 6, 4, 2, 6, 4]
  }

  lemma Walk2()
    ensures Walk(Row2(), 0, 197, 293)
  {
    hide Walk;
    WalkEnd(Row2(), 293);
    Five(Row2(), 15, 271, 277, 281, 283, 289, 293, 293);
    Five(Row2(), 10, 247, 251, 257, 263, 269, 271, 293);
    Five(Row2(), 5, 227, 229, 233, 239, 241, 247, 293);
    Five(Row2(), 0, 197, 199, 211, 221, 223, 227, 293);
  }

  function Row3(): (s: seq<nat>)
    ensures |s| == 20
  {
    [6, 8, 4, 2, 4, 6, 8, 6,10, 2, 4, 6, 2, 6, 6, 4, 2, 4, 6, 2]
  }

  lemma Walk3()
    ensures Walk(Row3(), 0, 293, 391)
  {
    hide Walk;
    WalkEnd(Row3(), 391);
    Five(Row3(), 15, 373, 377, 379, 383, 389, 391, 391);
    Five(Row3(), 10, 349, 353, 359, 361, 367, 373, 391);
    Five(Row3(), 5, 317, 323, 331, 337, 347, 349, 391);
    Five(Row3(), 0, 293, 299, 307, 311, 313, 317, 391);
  }

  function Row4(): (s: seq<nat>)
    ensures |s| == 20
  {
    [6, 4, 2, 6,10, 2,10, 2, 4, 2, 4, 6, 8, 4, 2, 4,12, 2, 6, 4]
  }

  lemma Walk4()
    ensures Walk(Row4(), 0, 391, 491)
  {
    hide Walk;
    WalkEnd(Row4(), 491);
    Five(Row4(), 15, 463, 467, 479, 481, 487, 491, 491);
    Five(Row4(), 10, 439, 443, 449, 457, 461, 463, 491);
    Five(Row4(), 5, 419, 421, 431, 433, 437, 439, 491);
    Five(Row4(), 0, 391, 397, 401, 403, 409, 419, 491);
  }

  function Row5(): (s: seq<nat>)
    ensures |s| == 20
  {
    [2, 6, 4, 6,12, 2, 4, 2, 4, 8, 6, 4, 6, 2, 4, 6, 2, 6,10, 2]
  }

  lemma Walk5()
    ensures Walk(Row5(), 0, 491, 589)
  {
    hide Walk;
    WalkEnd(Row5(), 589);
    Five(Row5(), 15, 563, 569, 571, 577, 587, 589, 589);
    Five(Row5(), 10, 541, 547, 551, 557, 559, 563, 589);
    Five(Row5(), 5, 521, 523, 527, 529, 533, 541, 589);
    Five(Row5(), 0, 491, 493, 499, 503, 509, 521, 589);
  }

  function Row6(): (s: seq<nat>)
    ensures |s| == 20
  {
    [4, 6, 2, 6, 4, 2, 4, 2,10, 2,10, 2, 4, 6, 6, 2, 6, 6, 4, 6]
  }

  lemma Walk6()
    ensures Walk(Row6(), 0, 589, 683)
  {
    hide Walk;
    WalkEnd(Row6(), 683);
    Five(Row6(), 15, 659, 661, 667, 673, 677, 683, 683);
    Five(Row6(), 10, 631, 641, 643, 647, 653, 659, 683);
    Five(Row6(), 5, 611, 613, 617, 619, 629, 631, 683);
    Five(Row6(), 0, 589, 593, 599, 601, 607, 611, 683);
  }

  function Row7(): (s: seq<nat>)
    ensures |s| == 20
  {
    [6, 2, 6, 4, 2, 6, 4, 6, 8, 4, 2, 6, 4, 8, 6, 4, 6, 2, 4, 6]
  }

  lemma Walk7()
    ensures Walk(Row7(), 0, 683, 779)
  {
    hide Walk;
    WalkEnd(Row7(), 779);
    Five(Row7(), 15, 757, 761, 767, 769, 773, 779, 779);
    Five(Row7(), 10, 731, 733, 739, 743, 751, 757, 779);
    Five(Row7(), 5, 703, 709, 713, 719, 727, 731, 779);
    Five(Row7(), 0, 683, 689, 691, 697, 701, 703, 779);
  }

  function Row8(): (s: seq<nat>)
    ensures |s| == 20
  {
    [8, 6, 4, 2,10, 2, 6, 4, 2, 4, 2,10, 2,10, 2, 4, 2, 4, 8, 6]
  }

  lemma Walk8()
    ensures Walk(Row8(), 0, 779, 877)
  {
    hide Walk;
    WalkEnd(Row8(), 877);
    Five(Row8(), 15, 853, 857, 859, 863, 871, 877, 877);
    Five(Row8(), 10, 827, 829, 839, 841, 851, 853, 877);
    Five(Row8(), 5, 809, 811, 817, 821, 823, 827, 877);
    Five(Row8(), 0, 779, 787, 793, 797, 799, 809, 877);
  }

  function Row9(): (s: seq<nat>)
    ensures |s| == 20
  {
    [4, 2, 4, 6, 6, 2, 6, 4, 8, 4, 6, 8, 4, 2, 4, 2, 4, 8, 6, 4]
  }

  lemma Walk9()
    ensures Walk(Row9(), 0, 877, 971)
  {
    hide Walk;
    WalkEnd(Row9(), 971);
    Five(Row9(), 15, 947, 949, 953, 961, 967, 971, 971);
    Five(Row9(), 10, 923, 929, 937, 941, 943, 947, 971);
    Five(Row9(), 5, 899, 901, 907, 911, 919, 923, 971);
    Five(Row9(), 0, 877, 881, 883, 887, 893, 899, 971);
  }

  function Row10(): (s: seq<nat>)
    ensures |s| == 20
  {
    [6, 6, 6, 2, 6, 6, 4, 2, 4, 6, 2, 6, 4, 2, 4, 2,10, 2,10, 2]
  }

  lemma Walk10()
    ensures Walk(Row10(), 0, 971, 1063)
  {
    hide Walk;
    WalkEnd(Row10(), 1063);
    Five(Row10(), 15, 1037, 1039, 1049, 1051, 1061, 1063, 1063);
    Five(Row10(), 10, 1019, 1021, 1027, 1031, 1033, 1037, 1063);
    Five(Row10(), 5, 997, 1003, 1007, 1009, 1013, 1019, 1063);
    Five(Row10(), 0, 971, 977, 983, 989, 991, 997, 1063);
  }

  function Row11(): (s: seq<nat>)
    ensures |s| == 20
  {
    [6, 4, 6, 2, 6, 4, 2, 4, 6, 6, 8, 4, 2, 6,10, 8, 4, 2, 4, 2]
  }

  lemma Walk11()
    ensures Walk(Row11(), 0, 1063, 1159)
  {
    hide Walk;
    WalkEnd(Row11(), 1159);
    Five(Row11(), 15, 1139, 1147, 1151, 1153, 1157, 1159, 1159);
    Five(Row11(), 10, 1109, 1117, 1121, 1123, 1129, 1139, 1159);
    Five(Row11(), 5, 1087, 1091, 1093, 1097, 1103, 1109, 1159);
    Five(Row11(), 0, 1063, 1069, 1073, 1079, 1081, 1087, 1159);
  }

  function Row12(): (s: seq<nat>)
    ensures |s| == 20
  {
    [4, 8,10, 6, 2, 4, 8, 6, 6, 4, 2, 4, 6, 2, 6, 4, 6, 2,10, 2]
  }

  lemma Walk12()
    ensures Walk(Row12(), 0, 1159, 1261)
  {
    hide Walk;
    WalkEnd(Row12(), 1261);
    Five(Row12(), 15, 1237, 1241, 1247, 1249, 1259, 1261, 1261);
    Five(Row12(), 10, 1217, 1219, 1223, 1229, 1231, 1237, 1261);
    Five(Row12(), 5, 1189, 1193, 1201, 1207, 1213, 1217, 1261);
    Five(Row12(), 0, 1159, 1163, 1171, 1181, 1187, 1189, 1261);
  }

  function Row13(): (s: seq<nat>)
    ensures |s| == 20
  {
    [10, 2, 4, 2, 4, 6, 2, 6, 4, 2, 4, 6, 6, 2, 6, 6, 6, 4, 6, 8]
  }

  lemma Walk13()
    ensures Walk(Row13(), 0, 1261, 1357)
  {
    hide Walk;
    WalkEnd(Row13(), 1357);
    Five(Row13(), 15, 1327, 1333, 1339, 1343, 1349, 1357, 1357);
    Five(Row13(), 10, 1303, 1307, 1313, 1319, 1321, 1327, 1357);
    Five(Row13(), 5, 1283, 1289, 1291, 1297, 1301, 1303, 1357);
    Five(Row13(), 0, 1261, 1271, 1273, 1277, 1279, 1283, 1357);
  }

  function Row14(): (s: seq<nat>)
    ensures |s| == 20
  {
    [4, 2, 4, 2, 4, 8, 6, 4, 8, 4, 6, 2, 6, 6, 4, 2, 4, 6, 8, 4]
  }

  lemma Walk14()
    ensures Walk(Row14(), 0, 1357, 1451)
  {
    hide Walk;
    WalkEnd(Row14(), 1451);
    Five(Row14(), 15, 1427, 1429, 1433, 1439, 1447, 1451, 1451);
    Five(Row14(), 10, 1403, 1409, 1411, 1417, 1423, 1427, 1451);
    Five(Row14(), 5, 1373, 1381, 1387, 1391, 1399, 1403, 1451);
    Five(Row14(), 0, 1357, 1361, 1363, 1367, 1369, 1373, 1451);
  }

  function Row15(): (s: seq<nat>)
    ensures |s| == 20
  {
    [2, 4, 2,10, 2,10, 2, 4, 2, 4, 6, 2,10, 2, 4, 6, 8, 6, 4, 2]
  }

  lemma Walk15()
    ensures Walk(Row15(), 0, 1451, 1543)
  {
    hide Walk;
    WalkEnd(Row15(), 1543);
    Five(Row15(), 15, 1517, 1523, 1531, 1537, 1541, 1543, 1543);
    Five(Row15(), 10, 1493, 1499, 1501, 1511, 1513, 1517, 1543);
    Five(Row15(), 5, 1471, 1481, 1483, 1487, 1489, 1493, 1543);
    Five(Row15(), 0, 1451, 1453, 1457, 1459, 1469, 1471, 1543);
  }

  function Row16(): (s: seq<nat>)
    ensures |s| == 20
  {
    [6, 4, 6, 8, 4, 6, 2, 4, 8, 6, 4, 6, 2, 4, 6, 2, 6, 6, 4, 6]
  }

  lemma Walk16()
    ensures Walk(Row16(), 0, 1543, 1643)
  {
    hide Walk;
    WalkEnd(Row16(), 1643);
    Five(Row16(), 15, 1619, 1621, 1627, 1633, 1637, 1643, 1643);
    Five(Row16(), 10, 1597, 1601, 1607, 1609, 1613, 1619, 1643);
    Five(Row16(), 5, 1571, 1577, 1579, 1583, 1591, 1597, 1643);
    Five(Row16(), 0, 1543, 1549, 1553, 1559, 1567, 1571, 1643);
  }

  function Row17(): (s: seq<nat>)
    ensures |s| == 20
  {
    [6, 2, 6, 6, 4, 2,10, 2,10, 2, 4, 2, 4, 6, 2, 6, 4, 2,10, 6]
  }

  lemma Walk17()
    ensures Walk(Row17(), 0, 1643, 1739)
  {
    hide Walk;
    WalkEnd(Row17(), 1739);
    Five(Row17(), 15, 1711, 1717, 1721, 1723, 1733, 1739, 1739);
    Five(Row17(), 10, 1693, 1697, 1699, 1703, 1709, 1711, 1739);
    Five(Row17(), 5, 1667, 1669, 1679, 1681, 1691, 1693, 1739);
    Five(Row17(), 0, 1643, 1649, 1651, 1657, 1663, 1667, 1739);
  }

  function Row18(): (s: seq<nat>)
    ensures |s| == 20
  {
    [2, 6, 4, 2, 6, 4, 6, 8, 4, 2, 4, 2,12, 6, 4, 6, 2, 4, 6, 2]
  }

  lemma Walk18()
    ensures Walk(Row18(), 0, 1739, 1831)
  {
    hide Walk;
    WalkEnd(Row18(), 1831);
    Five(Row18(), 15, 1811, 1817, 1819, 1823, 1829, 1831, 1831);
    Five(Row18(), 10, 1783, 1787, 1789, 1801, 1807, 1811, 1831);
    Five(Row18(), 5, 1759, 1763, 1769, 1777, 1781, 1783, 1831);
    Five(Row18(), 0, 1739, 1741, 1747, 1751, 1753, 1759, 1831);
  }

  function Row19(): (s: seq<nat>)
    ensures |s| == 20
  {
    [12, 4, 2, 4, 8, 6, 4, 2, 4, 2,10, 2,10, 6, 2, 4, 6, 2, 6, 4]
  }

  lemma Walk19()
    ensures Walk(Row19(), 0, 1831, 1931)
  {
    hide Walk;
    WalkEnd(Row19(), 1931);
    Five(Row19(), 15, 1909, 1913, 1919, 1921, 1927, 1931, 1931);
    Five(Row19(), 10, 1879, 1889, 1891, 1901, 1907, 1909, 1931);
    Five(Row19(), 5, 1861, 1867, 1871, 1873, 1877, 1879, 1931);
    Five(Row19(), 0, 1831, 1843, 1847, 1849, 1853, 1861, 1931);
  }

  function Row20(): (s: seq<nat>)
    ensures |s| == 20
  {
    [2, 4, 6, 6, 2, 6, 4, 2,10, 6, 8, 6, 4, 2, 4, 8, 6, 4, 6, 2]
  }

  lemma Walk20()
    ensures Walk(Row20(), 0, 1931, 2029)
  {
    hide Walk;
    WalkEnd(Row20(), 2029);
    Five(Row20(), 15, 2003, 2011, 2017, 2021, 2027, 2029, 2029);
    Five(Row20(), 10, 1979, 1987, 1993, 1997, 1999, 2003, 2029);
    Five(Row20(), 5, 1951, 1957, 1961, 1963, 1973, 1979, 2029);
    Five(Row20(), 0, 1931, 1933, 1937, 1943, 1949, 1951, 2029);
  }

  function Row21(): (s: seq<nat>)
    ensures |s| == 20
  {
    [4, 6, 2, 6, 6, 6, 4, 6, 2, 6, 4, 2, 4, 2,10,12, 2, 4, 2,10]
  }

  lemma Walk21()
    ensures Walk(Row21(), 0, 2029, 2129)
  {
    hide Walk;
    WalkEnd(Row21(), 2129);
    Five(Row21(), 15, 2099, 2111, 2113, 2117, 2119, 2129, 2129);
    Five(Row21(), 10, 2077, 2081, 2083, 2087, 2089, 2099, 2129);
    Five(Row21(), 5, 2053, 2059, 2063, 2069, 2071, 2077, 2129);
    Five(Row21(), 0, 2029, 2033, 2039, 2041, 2047, 2053, 2129);
  }

  function Row22(): (s: seq<nat>)
    ensures |s| == 20
  {
    [2, 6, 4, 2, 4, 6, 6, 2,10, 2, 6, 4,14, 4, 2, 4, 2, 4, 8, 6]
  }

  lemma Walk22()
    ensures Walk(Row22(), 0, 2129, 2227)
  {
    hide Walk;
    WalkEnd(Row22(), 2227);
    Five(Row22(), 15, 2203, 2207, 2209, 2213, 2221, 2227, 2227);
    Five(Row22(), 10, 2173, 2179, 2183, 2197, 2201, 2203, 2227);
    Five(Row22(), 5, 2147, 2153, 2159, 2161, 2171, 2173, 2227);
    Five(Row22(), 0, 2129, 2131, 2137, 2141, 2143, 2147, 2227);
  }

  function Row23(): (s: seq<nat>)
    ensures |s| == 20
  {
    [4, 6, 2, 4, 6, 2, 6, 6, 4, 2, 4, 6, 2, 6, 4, 2, 4,12, 2,12]
  }

  lemma Walk23()
    ensures Walk(Row23(), 0, 2227, 2323)
  {
    hide Walk;
    WalkEnd(Row23(), 2323);
    Five(Row23(), 15, 2291, 2293, 2297, 2309, 2311, 2323, 2323);
    Five(Row23(), 10, 2269, 2273, 2279, 2281, 2287, 2291, 2323);
    Five(Row23(), 5, 2249, 2251, 2257, 2263, 2267, 2269, 2323);
    Five(Row23(), 0, 2227, 2231, 2237, 2239, 2243, 2249, 2323);
  }

  function Rows0(row: nat): (s: seq<nat>)
    ensures |s| == 20
  {
    match row
    case 0 => Row0()
    case 1 => Row1()
    case 2 => Row2()
    case 3 => Row3()
    case 4 => Row4()
    case _ => Row5()
  }

  function Rows6(row: nat): (s: seq<nat>)
    ensures |s| == 20
  {
    match row
    case 6 => Row6()
    case 7 => Row7()
    case 8 => Row8()
    case 9 => Row9()
    case 10 => Row10()
    case _ => Row11()
  }

  function Rows12(row: nat): (s: seq<nat>)
    ensures |s| == 20
  {
    match row
    case 12 => Row12()
    case 13 => Row13()
    case 14 => Row14()
    case 15 => Row15()
    case 16 => Row16()
    case _ => Row17()
  }

  function Rows18(row: nat): (s: seq<nat>)
    ensures |s| == 20
  {
    match row
    case 18 => Row18()
    case 19 => Row19()
    case 20 => Row20()
    case 21 => Row21()
    case 22 => Row22()
    case _ => Row23()
  }

  /** The rows of the table. */
  function Row(row: nat): (s: seq<nat>)
    requires row < WHEEL_ROWS
    ensures |s| == 20
  {
    if row < 6 then Rows0(row) else if row < 12 then Rows6(row) else if row < 18 then Rows12(row) else Rows18(row)
  }

  /** Where the rows start. */
  function RowStart(row: nat): nat
  {
    match row
    case 0 => 13
    case 1 => 101
    case 2 => 197
    case 3 => 293
    case 4 => 391
    case 5 => 491
    case 6 => 589
    case 7 => 683
    case 8 => 779
    case 9 => 877
    case 10 => 971
    case 11 => 1063
    case 12 => 1159
    case 13 => 1261
    case 14 => 1357
    case 15 => 1451
    case 16 => 1543
    case 17 => 1643
    case 18 => 1739
    case 19 => 1831
    case 20 => 1931
    case 21 => 2029
    case 22 => 2129
    case 23 => 2227
    case _ => 2323
  }

  /** A row leads from its start to the next one. */
  ghost predicate Leads(row: nat)
    requires row < WHEEL_ROWS
  {
    Walk(Row(row), 0, RowStart(row), RowStart(row + 1))
  }

  lemma RowWalk0(row: nat)
    requires 0 <= row < 6
    ensures Leads(row)
  {
    hide Walk, AllSmall, Row0, Row1, Row2, Row3, Row4, Row5, Rows6, Rows12, Rows18;
    match row
    case 0 => Walk0();
    case 1 => Walk1();
    case 2 => Walk2();
    case 3 => Walk3();
    case 4 => Walk4();
    case _ => Walk5();
  }

  lemma RowWalk6(row: nat)
    requires 6 <= row < 12
    ensures Leads(row)
  {
    hide Walk, AllSmall, Row6, Row7, Row8, Row9, Row10, Row11, Rows0, Rows12, Rows18;
    match row
    case 6 => Walk6();
    case 7 => Walk7();
    case 8 => Walk8();
    case 9 => Walk9();
    case 10 => Walk10();
    case _ => Walk11();
  }

  lemma RowWalk12(row: nat)
    requires 12 <= row < 18
    ensures Leads(row)
  {
    hide Walk, AllSmall, Row12, Row13, Row14, Row15, Row16, Row17, Rows0, Rows6, Rows18;
    match row
    case 12 => Walk12();
    case 13 => Walk13();
    case 14 => Walk14();
    case 15 => Walk15();
    case 16 => Walk16();
    case _ => Walk17();
  }

  lemma RowWalk18(row: nat)
    requires 18 <= row < 24
    ensures Leads(row)
  {
    hide Walk, AllSmall, Row18, Row19, Row20, Row21, Row22, Row23, Rows0, Rows6, Rows12;
    match row
    case 18 => Walk18();
    case 19 => Walk19();
    case 20 => Walk20();
    case 21 => Walk21();
    case 22 => Walk22();
    case _ => Walk23();
  }

  lemma RowWalk(row: nat)
    requires row < WHEEL_ROWS
    ensures Leads(row)
  {
    hide Leads;
    if row < 6 { RowWalk0(row); } else if row < 12 { RowWalk6(row); } else if row < 18 { RowWalk12(row); }
      else { RowWalk18(row); }
  }

  // ---------- the table ----------

  /** The w-th step. */
  function Gap(w: nat): nat
    requires w < WHEEL_SIZE
  {
    if w == 0 then 1 else if w < 3 then 2 else if w == 3 then 4 else if w == 4 then 2
    else Row((w - WHEEL_START) / 20)[(w - WHEEL_START) % 20]
  }

  /** The divisor in front of the w-th step, the first time round. */
  function Pos(w: nat): nat
    requires w <= WHEEL_SIZE
  {
    if w == 0 then 2 else Pos(w - 1) + Gap(w - 1)
  }

  lemma {:induction false} RowPos(row: nat, i: nat)
    requires row < WHEEL_ROWS && i <= 20
    ensures Walk(Row(row), i, Pos(WHEEL_START + 20 * row + i), RowStart(row + 1))
    ensures Pos(WHEEL_START + 20 * row + i) % 2 == 1
    decreases row, i
  {
    hide AllSmall, Row, RowStart;
    if i > 0 {
      RowPos(row, i - 1);
      var w := WHEEL_START + 20 * row + i - 1;
      assert (w - WHEEL_START) / 20 == row && (w - WHEEL_START) % 20 == i - 1;
    } else if row > 0 {
      RowPos(row - 1, 20);
      RowWalk(row);
    } else {
      FirstSteps();
      RowWalk(0);
    }
  }

  lemma FirstSteps()
    ensures Pos(0) == 2 && Pos(1) == 3 && Pos(2) == 5 && Pos(3) == 7 && Pos(4) == 11 && Pos(5) == 13
    ensures RowStart(0) == 13
    ensures RowStart(WHEEL_ROWS) == 13 + 2310
  {
    assert Pos(2) == 5;
    assert Pos(4) == 11;
  }

  /** Every step of the table starts at an odd number and skips only multiples of the primes. */
  lemma StepAt(w: nat)
    requires WHEEL_START <= w < WHEEL_SIZE
    ensures Pos(w) % 2 == 1 && Pos(w + 1) == Pos(w) + Gap(w) && Step(Pos(w), Pos(w + 1))
  {
    hide AllSmall, Row, RowStart, Pos;
    var row, i := (w - WHEEL_START) / 20, (w - WHEEL_START) % 20;
    assert w == WHEEL_START + 20 * row + i;
    RowPos(row, i);
    PosNext(w);
  }

  lemma PosNext(w: nat)
    requires w < WHEEL_SIZE
    ensures Pos(w + 1) == Pos(w) + Gap(w)
  {
  }

  /** The wheel comes round after 2310 numbers. */
  lemma Turn()
    ensures Pos(WHEEL_SIZE) == 13 + 2310
  {
    hide AllSmall, Row, RowStart, Pos;
    RowPos(WHEEL_ROWS - 1, 20);
    FirstSteps();
  }

  // ---------- packing and unpacking ----------

  /** Steps, halved, as digits to base 8, the first one lowest. */
  function Pack(s: seq<nat>): nat
  {
    if s == [] then 0 else s[0] / 2 + 8 * Pack(s[1..])
  }

  /** The constants of the source. */
  function PackedWheel(row: nat): nat
    requires row < WHEEL_ROWS
  {
    2 * Pack(Row(row))
  }

  /** The digit in bits 1 to 3 is the next step; shifting by three leaves at most one bit of it behind. */
  lemma UnpackStep(v: nat, s: seq<nat>)
    requires s != [] && 2 <= s[0] <= 14 && s[0] % 2 == 0 && v / 2 == Pack(s)
    ensures v / 2 % 8 * 2 == s[0] && v / 8 / 2 == Pack(s[1..])
  {
  }

  lemma {:induction false} RowSteps(s: seq<nat>, i: nat, from: nat, to: nat, k: nat)
    requires i <= k < |s| && Walk(s, i, from, to)
    ensures 2 <= s[k] <= 14 && s[k] % 2 == 0
    decreases k - i
  {
    if i < k { RowSteps(s, i + 1, from + s[i], to, k); }
  }

  /** unpack_wheel. */
  method UnpackWheel() returns (tab: array<nat>)
    ensures fresh(tab) && tab.Length == WHEEL_SIZE && forall w | 0 <= w < WHEEL_SIZE :: tab[w] == Gap(w)
  {
    hide Walk, Row, Pack;
    tab := new nat[WHEEL_SIZE](_ => 0);
    tab[0], tab[1], tab[2], tab[3], tab[4] := 1, 2, 2, 4, 2;
    var p := 5;
    for i := 0 to WHEEL_ROWS
      invariant p == WHEEL_START + 20 * i && forall w | 0 <= w < p :: tab[w] == Gap(w)
    {
      var v := PackedWheel(i);
      ghost var s, k := Row(i), 0;
      RowWalk(i);
      assert s[0..] == s;
      while v / 2 % 8 != 0
        invariant 0 <= k <= 20 && p == WHEEL_START + 20 * i + k && v / 2 == Pack(s[k..])
        invariant forall w | 0 <= w < p :: tab[w] == Gap(w)
        decreases 20 - k
      {
        MoreSteps(s, k, v);
        RowSteps(s, 0, RowStart(i), RowStart(i + 1), k);
        UnpackStep(v, s[k..]);
        assert s[k..][1..] == s[k + 1..];
        assert (p - WHEEL_START) / 20 == i && (p - WHEEL_START) % 20 == k;
        tab[p] := v / 2 % 8 * 2;
        p := p + 1;
        v := v / 8;
        k := k + 1;
      }
      if k < 20 {
        RowSteps(s, 0, RowStart(i), RowStart(i + 1), k);
        UnpackStep(v, s[k..]);
        assert false;
      }
    }
  }

  lemma MoreSteps(s: seq<nat>, k: nat, v: nat)
    requires |s| == 20 && k <= 20 && v / 2 == Pack(s[k..]) && v / 2 % 8 != 0
    ensures k < 20
  {
  }
}
