/** The table that predicts how many digits a left shift adds, and the proof of all its rows. */
module CheatTable {
  import opened Powers
  import opened DigitView

  /** delta: digits added by multiplying by 2^k; one less if the digits compare below the cutoff.
      The source writes the cutoff as a string; here it is the number with those digits. */
  datatype LeftCheat = LeftCheat(delta: nat, cutoff: nat)

  function Row(k: nat): LeftCheat
    requires k <= MAX_SHIFT
  {
    match k
    case 0 => LeftCheat(0, 0)
    case 1 => LeftCheat(1, 5)
    case 2 => LeftCheat(1, 25)
    case 3 => LeftCheat(1, 125)
    case 4 => LeftCheat(2, 625)
    case 5 => LeftCheat(2, 3125)
    case 6 => LeftCheat(2, 15625)
    case 7 => LeftCheat(3, 78125)
    case 8 => LeftCheat(3, 390625)
    case 9 => LeftCheat(3, 1953125)
    case 10 => LeftCheat(4, 9765625)
    case 11 => LeftCheat(4, 48828125)
    case 12 => LeftCheat(4, 244140625)
    case 13 => LeftCheat(4, 1220703125)
    case 14 => LeftCheat(5, 6103515625)
    case 15 => LeftCheat(5, 30517578125)
    case 16 => LeftCheat(5, 152587890625)
    case 17 => LeftCheat(6, 762939453125)
    case 18 => LeftCheat(6, 3814697265625)
    case 19 => LeftCheat(6, 19073486328125)
    case 20 => LeftCheat(7, 95367431640625)
    case 21 => LeftCheat(7, 476837158203125)
    case 22 => LeftCheat(7, 2384185791015625)
    case 23 => LeftCheat(7, 11920928955078125)
    case 24 => LeftCheat(8, 59604644775390625)
    case 25 => LeftCheat(8, 298023223876953125)
    case 26 => LeftCheat(8, 1490116119384765625)
    case 27 => LeftCheat(9, 7450580596923828125)
    case 28 => LeftCheat(9, 37252902984619140625)
    case 29 => LeftCheat(9, 186264514923095703125)
    case 30 => LeftCheat(10, 931322574615478515625)
    case 31 => LeftCheat(10, 4656612873077392578125)
    case 32 => LeftCheat(10, 23283064365386962890625)
    case 33 => LeftCheat(10, 116415321826934814453125)
    case 34 => LeftCheat(11, 582076609134674072265625)
    case 35 => LeftCheat(11, 2910383045673370361328125)
    case 36 => LeftCheat(11, 14551915228366851806640625)
    case 37 => LeftCheat(12, 72759576141834259033203125)
    case 38 => LeftCheat(12, 363797880709171295166015625)
    case 39 => LeftCheat(12, 1818989403545856475830078125)
    case 40 => LeftCheat(13, 9094947017729282379150390625)
    case 41 => LeftCheat(13, 45474735088646411895751953125)
    case 42 => LeftCheat(13, 227373675443232059478759765625)
    case 43 => LeftCheat(13, 1136868377216160297393798828125)
    case 44 => LeftCheat(14, 5684341886080801486968994140625)
    case 45 => LeftCheat(14, 28421709430404007434844970703125)
    case 46 => LeftCheat(14, 142108547152020037174224853515625)
    case 47 => LeftCheat(15, 710542735760100185871124267578125)
    case 48 => LeftCheat(15, 3552713678800500929355621337890625)
    case 49 => LeftCheat(15, 17763568394002504646778106689453125)
    case 50 => LeftCheat(16, 88817841970012523233890533447265625)
    case 51 => LeftCheat(16, 444089209850062616169452667236328125)
    case 52 => LeftCheat(16, 2220446049250313080847263336181640625)
    case 53 => LeftCheat(16, 11102230246251565404236316680908203125)
    case 54 => LeftCheat(17, 55511151231257827021181583404541015625)
    case 55 => LeftCheat(17, 277555756156289135105907917022705078125)
    case 56 => LeftCheat(17, 1387778780781445675529539585113525390625)
    case 57 => LeftCheat(18, 6938893903907228377647697925567626953125)
    case 58 => LeftCheat(18, 34694469519536141888238489627838134765625)
    case 59 => LeftCheat(18, 173472347597680709441192448139190673828125)
    case _ => LeftCheat(19, 867361737988403547205962240695953369140625)
  }

  /** What row k has to be: the digits of 5^k, and the number of digits of 2^k. */
  ghost predicate RowCorrect(k: nat)
    requires k <= MAX_SHIFT
  {
    var row := Row(k);
    if k == 0 then row.delta == 0 && row.cutoff == 0 else
      row.cutoff == Pow(5, k) && row.delta > 0 && Pow(10, row.delta - 1) < Pow(2, k) < Pow(10, row.delta)
  }

  /** Evaluates rows k to end - 1 against running powers of five, two and ten. */
  predicate CheckRows(k: nat, end: nat, five: nat, two: nat, delta: nat, ten: nat)
    requires k <= end <= MAX_SHIFT + 1
    decreases end - k
  {
    k == end ||
    (&& Row(k) == LeftCheat(delta, five)
     && ten < two < 10 * ten
     && if 2 * two < 10 * ten then CheckRows(k + 1, end, 5 * five, 2 * two, delta, ten)
        else CheckRows(k + 1, end, 5 * five, 2 * two, delta + 1, 10 * ten))
  }

  lemma {:induction false} CheckRowsSound(k: nat, end: nat, delta: nat, ten: nat, i: nat)
    requires 0 < k <= i < end <= MAX_SHIFT + 1
    requires delta > 0 && ten == Pow(10, delta - 1)
    requires CheckRows(k, end, Pow(5, k), Pow(2, k), delta, ten)
    ensures RowCorrect(i)
    decreases end - k
  {
    if k < i {
      if 2 * Pow(2, k) < 10 * ten {
        CheckRowsSound(k + 1, end, delta, ten, i);
      } else {
        CheckRowsSound(k + 1, end, delta + 1, 10 * ten, i);
      }
    }
  }

  /** Powers at the rows where a stretch of five begins. */
  lemma PowerMilestones()
    ensures Pow(5, 1) == 5 && Pow(2, 1) == 2 && Pow(10, 0) == 1
    ensures Pow(5, 6) == 15625 && Pow(2, 6) == 64 && Pow(10, 1) == 10
    ensures Pow(5, 11) == 48828125 && Pow(2, 11) == 2048 && Pow(10, 3) == 1000
    ensures Pow(5, 16) == 152587890625 && Pow(2, 16) == 65536 && Pow(10, 4) == 10000
    ensures Pow(5, 21) == 476837158203125 && Pow(2, 21) == 2097152 && Pow(10, 6) == 1000000
    ensures Pow(5, 26) == 1490116119384765625 && Pow(2, 26) == 67108864 && Pow(10, 7) == 10000000
    ensures Pow(5, 31) == 4656612873077392578125 && Pow(2, 31) == 2147483648 && Pow(10, 9) == 1000000000
    ensures Pow(5, 36) == 14551915228366851806640625 && Pow(2, 36) == 68719476736 && Pow(10, 10) == 10000000000
    ensures Pow(5, 41) == 45474735088646411895751953125 && Pow(2, 41) == 2199023255552 && Pow(10, 12) == 1000000000000
    ensures Pow(5, 46) == 142108547152020037174224853515625 && Pow(2, 46) == 70368744177664 && Pow(10, 13) == 10000000000000
    ensures Pow(5, 51) == 444089209850062616169452667236328125 && Pow(2, 51) == 2251799813685248 && Pow(10, 15) == 1000000000000000
    ensures Pow(5, 56) == 1387778780781445675529539585113525390625 && Pow(2, 56) == 72057594037927936 && Pow(10, 16) == 10000000000000000
  {
    PowAdd(5, 1, 5);
    PowAdd(2, 1, 5);
    PowAdd(10, 0, 1);
    PowAdd(5, 6, 5);
    PowAdd(2, 6, 5);
    PowAdd(10, 1, 2);
    PowAdd(5, 11, 5);
    PowAdd(2, 11, 5);
    PowAdd(10, 3, 1);
    PowAdd(5, 16, 5);
    PowAdd(2, 16, 5);
    PowAdd(10, 4, 2);
    PowAdd(5, 21, 5);
    PowAdd(2, 21, 5);
    PowAdd(10, 6, 1);
    PowAdd(5, 26, 5);
    PowAdd(2, 26, 5);
    PowAdd(10, 7, 2);
    PowAdd(5, 31, 5);
    PowAdd(2, 31, 5);
    PowAdd(10, 9, 1);
    PowAdd(5, 36, 5);
    PowAdd(2, 36, 5);
    PowAdd(10, 10, 2);
    PowAdd(5, 41, 5);
    PowAdd(2, 41, 5);
    PowAdd(10, 12, 1);
    PowAdd(5, 46, 5);
    PowAdd(2, 46, 5);
    PowAdd(10, 13, 2);
    PowAdd(5, 51, 5);
    PowAdd(2, 51, 5);
    PowAdd(10, 15, 1);
  }

  lemma Rows1To5()
    ensures CheckRows(1, 6, 5, 2, 1, 1)
  {
  }

  lemma Rows6To10()
    ensures CheckRows(6, 11, 15625, 64, 2, 10)
  {
  }

  lemma Rows11To15()
    ensures CheckRows(11, 16, 48828125, 2048, 4, 1000)
  {
  }

  lemma Rows16To20()
    ensures CheckRows(16, 21, 152587890625, 65536, 5, 10000)
  {
  }

  lemma Rows21To25()
    ensures CheckRows(21, 26, 476837158203125, 2097152, 7, 1000000)
  {
  }

  lemma Rows26To30()
    ensures CheckRows(26, 31, 1490116119384765625, 67108864, 8, 10000000)
  {
  }

  lemma Rows31To35()
    ensures CheckRows(31, 36, 4656612873077392578125, 2147483648, 10, 1000000000)
  {
  }

  lemma Rows36To40()
    ensures CheckRows(36, 41, 14551915228366851806640625, 68719476736, 11, 10000000000)
  {
  }

  lemma Rows41To45()
    ensures CheckRows(41, 46, 45474735088646411895751953125, 2199023255552, 13, 1000000000000)
  {
  }

  lemma Rows46To50()
    ensures CheckRows(46, 51, 142108547152020037174224853515625, 70368744177664, 14, 10000000000000)
  {
  }

  lemma Rows51To55()
    ensures CheckRows(51, 56, 444089209850062616169452667236328125, 2251799813685248, 16, 1000000000000000)
  {
  }

  lemma Rows56To60()
    ensures CheckRows(56, 61, 1387778780781445675529539585113525390625, 72057594037927936, 17, 10000000000000000)
  {
  }

  /** Every row of the table is right. */
  lemma TableCorrect(k: nat)
    requires k <= MAX_SHIFT
    ensures RowCorrect(k)
  {
    hide CheckRows, Pow;
    PowerMilestones();
    if k == 0 {
    } else if k < 6 {
      Rows1To5();
      CheckRowsSound(1, 6, 1, 1, k);
    } else if k < 11 {
      Rows6To10();
      CheckRowsSound(6, 11, 2, 10, k);
    } else if k < 16 {
      Rows11To15();
      CheckRowsSound(11, 16, 4, 1000, k);
    } else if k < 21 {
      Rows16To20();
      CheckRowsSound(16, 21, 5, 10000, k);
    } else if k < 26 {
      Rows21To25();
      CheckRowsSound(21, 26, 7, 1000000, k);
    } else if k < 31 {
      Rows26To30();
      CheckRowsSound(26, 31, 8, 10000000, k);
    } else if k < 36 {
      Rows31To35();
      CheckRowsSound(31, 36, 10, 1000000000, k);
    } else if k < 41 {
      Rows36To40();
      CheckRowsSound(36, 41, 11, 10000000000, k);
    } else if k < 46 {
      Rows41To45();
      CheckRowsSound(41, 46, 13, 1000000000000, k);
    } else if k < 51 {
      Rows46To50();
      CheckRowsSound(46, 51, 14, 10000000000000, k);
    } else if k < 56 {
      Rows51To55();
      CheckRowsSound(51, 56, 16, 1000000000000000, k);
    } else {
      Rows56To60();
      CheckRowsSound(56, 61, 17, 10000000000000000, k);
    }
  }
}
