/** The Fibonacci numbers from the ninety-fourth to the two hundred and eighty-third, looked at one by one:
    those that fill a second 64-bit limb never leave that limb zero. */
module FibTable {
  import opened Fibonacci

  /** A second limb that is not zero. */
  predicate SecondLimbUsed(x: int) {
    x / 0x1_0000_0000_0000_0000 % 0x1_0000_0000_0000_0000 != 0
  }

  /** k additions lead from (a, b) to (c, d), past numbers that all use their second limb. */
  predicate Leads(a: int, b: int, k: nat, c: int, d: int)
    decreases k
  {
    if k == 0 then a == c && b == d
    else SecondLimbUsed(a) && Leads(a + b, a, k - 1, c, d)
  }

  /** a and b are Fib(n) and the number before it. */
  ghost predicate At(n: nat, a: int, b: int) {
    n > 0 && a == Fib(n) && b == Fib(n - 1)
  }

  lemma {:induction false} LeadsAlong(n: nat, k: nat, a: int, b: int, c: int, d: int)
    requires At(n, a, b) && Leads(a, b, k, c, d)
    ensures At(n + k, c, d)
    ensures forall m :: n <= m < n + k ==> SecondLimbUsed(Fib(m))
    decreases k
  {
    if k > 0 {
      Next(n, a, b);
      LeadsAlong(n + 1, k - 1, a + b, a, c, d);
    }
  }

  lemma AtMost(n: nat, k: nat, x: int)
    requires n <= k && Fib(k) < x
    ensures Fib(n) < x
  {
    FibMonotone(n, k);
  }

  lemma Before(n: nat, k: nat, x: int)
    requires Fib(n) < x <= Fib(k)
    ensures n < k
  {
    if n >= k { FibMonotone(k, n); }
  }

  // ---- Doubling the index ----

  /** The addition formula. */
  lemma {:induction false} FibSum(m: nat, n: nat)
    requires m > 0
    ensures Fib(m + n) == Fib(m) * Fib(n + 1) + Fib(m - 1) * Fib(n)
    decreases n
  {
    if n > 0 {
      FibSum(m + 1, n - 1);
      assert Fib(m + 1) == Fib(m) + Fib(m - 1) && Fib(n + 1) == Fib(n) + Fib(n - 1);
      Exchange(Fib(m + n), Fib(m), Fib(m - 1), Fib(n), Fib(n - 1), Fib(m + 1), Fib(n + 1));
    }
  }

  lemma Exchange(sum: int, a: int, b: int, x: int, y: int, ab: int, xy: int)
    requires ab == a + b && xy == x + y && sum == ab * x + a * y
    ensures sum == a * xy + b * x
  {
    assert ab * x == a * x + b * x && a * xy == a * x + a * y;
  }

  lemma Regroup(a: int, b: int)
    ensures a * (a + b) + b * a == a * (a + 2 * b)
  {
  }

  lemma Double(n: nat, a: int, b: int, n': nat, a': int, b': int)
    requires At(n, a, b) && n' == 2 * n && a' == a * (a + 2 * b) && b' == a * a + b * b
    ensures At(n', a', b')
  {
    FibSum(n, n);
    FibSum(n, n - 1);
    Regroup(a, b);
  }

  lemma Next(n: nat, a: int, b: int)
    requires At(n, a, b)
    ensures At(n + 1, a + b, a)
  {
  }

  // ---- The table ----

  ghost predicate Seen(n: nat, a: int, b: int) {
    At(n, a, b) && forall m :: 94 <= m < n ==> SecondLimbUsed(Fib(m))
  }

  /** One row: from Fib(n) and its predecessor to the pair ten places on. */
  lemma Row(n: nat, a: int, b: int, c: int, d: int)
    requires Seen(n, a, b) && Leads(a, b, 10, c, d)
    ensures Seen(n + 10, c, d)
  {
    LeadsAlong(n, 10, a, b, c, d);
  }

  lemma Start(n: nat)
    requires n == 94
    ensures Seen(n, 19740274219868223167, 12200160415121876738)
  {
    var m := 1;
    Place46(m);
    Next(m + 45, 1836311903, 1134903170);
    Double(m + 46, 2971215073, 1836311903,
           m + 93, 19740274219868223167, 12200160415121876738);
  }

  // The rows are ground: ten additions from one pair of numbers to the next, each sum looked at.

  lemma Leads94()
    ensures Leads(19740274219868223167,
                  12200160415121876738, 10,
                  2427893228399975082453,
                  1500520536206896083277)
  {
  }

  lemma Leads104()
    ensures Leads(2427893228399975082453,
                  1500520536206896083277, 10,
                  298611126818977066918552,
                  184551825793033096366333)
  {
  }

  lemma Leads114()
    ensures Leads(298611126818977066918552,
                  184551825793033096366333, 10,
                  36726740705505779255899443,
                  22698374052006863956975682)
  {
  }

  lemma Leads124()
    ensures Leads(36726740705505779255899443,
                  22698374052006863956975682, 10,
                  4517090495650391871408712937,
                  2791715456571051233611642553)
  {
  }

  lemma Leads134()
    ensures Leads(4517090495650391871408712937,
                  2791715456571051233611642553, 10,
                  555565404224292694404015791808,
                  343358302784187294870275058337)
  {
  }

  lemma Leads144()
    ensures Leads(555565404224292694404015791808,
                  343358302784187294870275058337, 10,
                  68330027629092351019822533679447,
                  42230279526998466217810220532898)
  {
  }

  lemma Leads154()
    ensures Leads(68330027629092351019822533679447,
                  42230279526998466217810220532898, 10,
                  8404037832974134882743767626780173,
                  5193981023518027157495786850488117)
  {
  }

  lemma Leads164()
    ensures Leads(8404037832974134882743767626780173,
                  5193981023518027157495786850488117, 10,
                  1033628323428189498226463595560281832,
                  638817435613190341905763972389505493)
  {
  }

  lemma Leads174()
    ensures Leads(1033628323428189498226463595560281832,
                  638817435613190341905763972389505493, 10,
                  127127879743834334146972278486287885163,
                  78569350599398894027251472817058687522)
  {
  }

  lemma Leads184()
    ensures Leads(127127879743834334146972278486287885163,
                  78569350599398894027251472817058687522, 10,
                  15635695580168194910579363790217849593217,
                  9663391306290450775010025392525829059713)
  {
  }

  lemma Leads194()
    ensures Leads(15635695580168194910579363790217849593217,
                  9663391306290450775010025392525829059713, 10,
                  1923063428480944139667114773918309212080528,
                  1188518561323126046432205871807859915657177)
  {
  }

  lemma Leads204()
    ensures Leads(1923063428480944139667114773918309212080528,
                  1188518561323126046432205871807859915657177, 10,
                  236521166007575960984144537828161815236311727,
                  146178119651438213260386312206974243796773058)
  {
  }

  lemma Leads214()
    ensures Leads(236521166007575960984144537828161815236311727,
                  146178119651438213260386312206974243796773058, 10,
                  29090180355503362256910111038089984964854261893,
                  17978720198565577104981084195586024127087428957)
  {
  }

  lemma Leads224()
    ensures Leads(29090180355503362256910111038089984964854261893,
                  17978720198565577104981084195586024127087428957, 10,
                  3577855662560905981638959513147239988861837901112,
                  2211236406303914545699412969744873993387956988653)
  {
  }

  lemma Leads234()
    ensures Leads(3577855662560905981638959513147239988861837901112,
                  2211236406303914545699412969744873993387956988653, 10,
                  440047156314635932379335110006072428645041207574883,
                  271964099255182923543922814194423915162591622175362)
  {
  }

  lemma Leads244()
    ensures Leads(440047156314635932379335110006072428645041207574883,
                  271964099255182923543922814194423915162591622175362, 10,
                  54122222371037658776676579571233761483351206693809497,
                  33449372971981195681356806732944396691005381570580873)
  {
  }

  lemma Leads254()
    ensures Leads(54122222371037658776676579571233761483351206693809497,
                  33449372971981195681356806732944396691005381570580873, 10,
                  6656593304481317393598839952151746590023553382130993248,
                  4114000911454431885883343305337966369078499341559272017)
  {
  }

  lemma Leads264()
    ensures Leads(6656593304481317393598839952151746590023553382130993248,
                  4114000911454431885883343305337966369078499341559272017, 10,
                  818706854228831001753880637535093596811413714795418360007,
                  505988662735923140767969869749836918999964413630219877218)
  {
  }

  lemma Leads274()
    ensures Leads(818706854228831001753880637535093596811413714795418360007,
                  505988662735923140767969869749836918999964413630219877218, 10,
                  100694286476841731898333719576864360661213863366454327287613,
                  62232491515607091882574410635924603070626544377175485625797)
  {
  }

  /** The table: nineteen rows of ten, from the ninety-fourth number to the first one of four limbs. */
  lemma Rows(n: nat)
    requires n == 94
    ensures Seen(n + 190, 100694286476841731898333719576864360661213863366454327287613, 62232491515607091882574410635924603070626544377175485625797)
  {
    Start(n);
    Leads94();
    Row(n + 0, 19740274219868223167,
        12200160415121876738,
        2427893228399975082453,
        1500520536206896083277);
    Leads104();
    Row(n + 10, 2427893228399975082453,
        1500520536206896083277,
        298611126818977066918552,
        184551825793033096366333);
    Leads114();
    Row(n + 20, 298611126818977066918552,
        184551825793033096366333,
        36726740705505779255899443,
        22698374052006863956975682);
    Leads124();
    Row(n + 30, 36726740705505779255899443,
        22698374052006863956975682,
        4517090495650391871408712937,
        2791715456571051233611642553);
    Leads134();
    Row(n + 40, 4517090495650391871408712937,
        2791715456571051233611642553,
        555565404224292694404015791808,
        343358302784187294870275058337);
    Leads144();
    Row(n + 50, 555565404224292694404015791808,
        343358302784187294870275058337,
        68330027629092351019822533679447,
        42230279526998466217810220532898);
    Leads154();
    Row(n + 60, 68330027629092351019822533679447,
        42230279526998466217810220532898,
        8404037832974134882743767626780173,
        5193981023518027157495786850488117);
    Leads164();
    Row(n + 70, 8404037832974134882743767626780173,
        5193981023518027157495786850488117,
        1033628323428189498226463595560281832,
        638817435613190341905763972389505493);
    Leads174();
    Row(n + 80, 1033628323428189498226463595560281832,
        638817435613190341905763972389505493,
        127127879743834334146972278486287885163,
        78569350599398894027251472817058687522);
    Leads184();
    Row(n + 90, 127127879743834334146972278486287885163,
        78569350599398894027251472817058687522,
        15635695580168194910579363790217849593217,
        9663391306290450775010025392525829059713);
    Leads194();
    Row(n + 100, 15635695580168194910579363790217849593217,
        9663391306290450775010025392525829059713,
        1923063428480944139667114773918309212080528,
        1188518561323126046432205871807859915657177);
    Leads204();
    Row(n + 110, 1923063428480944139667114773918309212080528,
        1188518561323126046432205871807859915657177,
        236521166007575960984144537828161815236311727,
        146178119651438213260386312206974243796773058);
    Leads214();
    Row(n + 120, 236521166007575960984144537828161815236311727,
        146178119651438213260386312206974243796773058,
        29090180355503362256910111038089984964854261893,
        17978720198565577104981084195586024127087428957);
    Leads224();
    Row(n + 130, 29090180355503362256910111038089984964854261893,
        17978720198565577104981084195586024127087428957,
        3577855662560905981638959513147239988861837901112,
        2211236406303914545699412969744873993387956988653);
    Leads234();
    Row(n + 140, 3577855662560905981638959513147239988861837901112,
        2211236406303914545699412969744873993387956988653,
        440047156314635932379335110006072428645041207574883,
        271964099255182923543922814194423915162591622175362);
    Leads244();
    Row(n + 150, 440047156314635932379335110006072428645041207574883,
        271964099255182923543922814194423915162591622175362,
        54122222371037658776676579571233761483351206693809497,
        33449372971981195681356806732944396691005381570580873);
    Leads254();
    Row(n + 160, 54122222371037658776676579571233761483351206693809497,
        33449372971981195681356806732944396691005381570580873,
        6656593304481317393598839952151746590023553382130993248,
        4114000911454431885883343305337966369078499341559272017);
    Leads264();
    Row(n + 170, 6656593304481317393598839952151746590023553382130993248,
        4114000911454431885883343305337966369078499341559272017,
        818706854228831001753880637535093596811413714795418360007,
        505988662735923140767969869749836918999964413630219877218);
    Leads274();
    Row(n + 180, 818706854228831001753880637535093596811413714795418360007,
        505988662735923140767969869749836918999964413630219877218,
        100694286476841731898333719576864360661213863366454327287613,
        62232491515607091882574410635924603070626544377175485625797);
  }

  /** From the ninety-fourth place on the second limb is in use. */
  lemma SecondLimbs(n: nat)
    requires 94 <= n <= 283
    ensures SecondLimbUsed(Fib(n))
  {
    var first := 94;
    Rows(first);
  }

  // ---- How large the numbers are where the programs switch between formats ----

  lemma Place23(m: nat)
    requires m == 1
    ensures At(m + 22, 28657, 17711)
  {
    Double(m, 1, 0,
           m + 1, 1, 1);
    Double(m + 1, 1, 1,
           m + 3, 3, 2);
    Next(m + 3, 3, 2);
    Double(m + 4, 5, 3,
           m + 9, 55, 34);
    Next(m + 9, 55, 34);
    Double(m + 10, 89, 55,
           m + 21, 17711, 10946);
    Next(m + 21, 17711, 10946);
  }

  lemma Place34(m: nat)
    requires m == 1
    ensures At(m + 33, 5702887, 3524578)
  {
    Double(m, 1, 0,
           m + 1, 1, 1);
    Double(m + 1, 1, 1,
           m + 3, 3, 2);
    Double(m + 3, 3, 2,
           m + 7, 21, 13);
    Double(m + 7, 21, 13,
           m + 15, 987, 610);
    Next(m + 15, 987, 610);
    Double(m + 16, 1597, 987,
           m + 33, 5702887, 3524578);
  }

  lemma Place46(m: nat)
    requires m == 1
    ensures At(m + 45, 1836311903, 1134903170)
  {
    Place23(m);
    Double(m + 22, 28657, 17711,
           m + 45, 1836311903, 1134903170);
  }

  lemma Place138(m: nat)
    requires m == 1
    ensures At(m + 137, 30960598847965113057878492344, 19134702400093278081449423917)
  {
    Place34(m);
    Double(m + 33, 5702887, 3524578,
           m + 67, 72723460248141, 44945570212853);
    Next(m + 67, 72723460248141, 44945570212853);
    Double(m + 68, 117669030460994, 72723460248141,
           m + 137, 30960598847965113057878492344, 19134702400093278081449423917);
  }

  lemma Below48Bits(n: nat)
    requires n <= 70
    ensures Fib(n) < 0x1_0000_0000_0000
  {
    var m := 1;
    Place34(m);
    Next(m + 33, 5702887, 3524578);
    Double(m + 34, 9227465, 5702887,
           m + 69, 190392490709135, 117669030460994);
    AtMost(n, m + 69, 0x1_0000_0000_0000);
  }

  lemma Below96Bits(n: nat)
    requires n <= 139
    ensures Fib(n) < 0x1_0000_0000_0000_0000_0000_0000
  {
    var m := 1;
    Place138(m);
    Next(m + 137, 30960598847965113057878492344, 19134702400093278081449423917);
    AtMost(n, m + 138, 0x1_0000_0000_0000_0000_0000_0000);
  }

  lemma Below128Bits(n: nat)
    requires n <= 186
    ensures Fib(n) < 0x1_0000_0000_0000_0000_0000_0000_0000_0000
  {
    var m := 1;
    Place46(m);
    Double(m + 45, 1836311903, 1134903170,
           m + 91, 7540113804746346429, 4660046610375530309);
    Next(m + 91, 7540113804746346429, 4660046610375530309);
    Double(m + 92, 12200160415121876738, 7540113804746346429,
           m + 185, 332825110087067562321196029789634457848, 205697230343233228174223751303346572685);
    AtMost(n, m + 185, 0x1_0000_0000_0000_0000_0000_0000_0000_0000);
  }

  lemma Below144Bits(n: nat)
    requires n <= 209
    ensures Fib(n) < 0x1_0000_0000_0000_0000_0000_0000_0000_0000_0000
  {
    var m := 1;
    Place23(m);
    Next(m + 22, 28657, 17711);
    Next(m + 23, 46368, 28657);
    Next(m + 24, 75025, 46368);
    Double(m + 25, 121393, 75025,
           m + 51, 32951280099, 20365011074);
    Double(m + 51, 32951280099, 20365011074,
           m + 103, 2427893228399975082453, 1500520536206896083277);
    Double(m + 103, 2427893228399975082453, 1500520536206896083277,
           m + 207, 13180872826374098837632191485015125807374171, 8146227408089084511865756065370647467555938);
    Next(m + 207, 13180872826374098837632191485015125807374171, 8146227408089084511865756065370647467555938);
    AtMost(n, m + 208, 0x1_0000_0000_0000_0000_0000_0000_0000_0000_0000);
  }

  lemma Below192Bits(n: nat)
    requires n <= 278
    ensures Fib(n) < 0x1_0000_0000_0000_0000_0000_0000_0000_0000_0000_0000_0000_0000
  {
    var m := 1;
    Place138(m);
    Next(m + 137, 30960598847965113057878492344, 19134702400093278081449423917);
    Double(m + 138, 50095301248058391139327916261, 30960598847965113057878492344,
           m + 277, 5611500259351924431073312796924978741056961814867751431689, 3468097888158339286797581652104954628434169971646694834457);
    AtMost(n, m + 277, 0x1_0000_0000_0000_0000_0000_0000_0000_0000_0000_0000_0000_0000);
  }

  lemma Below256Bits(n: nat)
    requires n <= 300
    ensures Fib(n) < 0x1_0000_0000_0000_0000_0000_0000_0000_0000_0000_0000_0000_0000_0000_0000_0000_0000
  {
    var m := 1;
    Place34(m);
    Next(m + 33, 5702887, 3524578);
    Next(m + 34, 9227465, 5702887);
    Next(m + 35, 14930352, 9227465);
    Double(m + 36, 24157817, 14930352,
           m + 73, 1304969544928657, 806515533049393);
    Next(m + 73, 1304969544928657, 806515533049393);
    Double(m + 74, 2111485077978050, 1304969544928657,
           m + 149, 9969216677189303386214405760200, 6161314747715278029583501626149);
    Double(m + 149, 9969216677189303386214405760200, 6161314747715278029583501626149,
           m + 299, 222232244629420445529739893461909967206666939096499764990979600, 137347080577163115432025771710279131845700275212767467264610201);
    AtMost(n, m + 299, 0x1_0000_0000_0000_0000_0000_0000_0000_0000_0000_0000_0000_0000_0000_0000_0000_0000);
  }

  // ---- And from where on they need the next limb, or the next group ----

  lemma Reaches48Bits(n: nat)
    requires n >= 71
    ensures Fib(n) >= 0x1_0000_0000_0000
  {
    var m := 1;
    Place34(m);
    Next(m + 33, 5702887, 3524578);
    Double(m + 34, 9227465, 5702887,
           m + 69, 190392490709135, 117669030460994);
    Next(m + 69, 190392490709135, 117669030460994);
    FibMonotone(m + 70, n);
  }

  lemma Reaches64Bits(n: nat)
    requires n >= 94
    ensures Fib(n) >= 0x1_0000_0000_0000_0000
  {
    var m := 1;
    Place46(m);
    Next(m + 45, 1836311903, 1134903170);
    Double(m + 46, 2971215073, 1836311903,
           m + 93, 19740274219868223167, 12200160415121876738);
    FibMonotone(m + 93, n);
  }

  lemma Reaches96Bits(n: nat)
    requires n >= 140
    ensures Fib(n) >= 0x1_0000_0000_0000_0000_0000_0000
  {
    var m := 1;
    Place138(m);
    Next(m + 137, 30960598847965113057878492344, 19134702400093278081449423917);
    Next(m + 138, 50095301248058391139327916261, 30960598847965113057878492344);
    FibMonotone(m + 139, n);
  }

  lemma Reaches128Bits(n: nat)
    requires n >= 187
    ensures Fib(n) >= 0x1_0000_0000_0000_0000_0000_0000_0000_0000
  {
    var m := 1;
    Place46(m);
    Double(m + 45, 1836311903, 1134903170,
           m + 91, 7540113804746346429, 4660046610375530309);
    Next(m + 91, 7540113804746346429, 4660046610375530309);
    Double(m + 92, 12200160415121876738, 7540113804746346429,
           m + 185, 332825110087067562321196029789634457848, 205697230343233228174223751303346572685);
    Next(m + 185, 332825110087067562321196029789634457848, 205697230343233228174223751303346572685);
    FibMonotone(m + 186, n);
  }

  lemma Reaches192Bits(n: nat)
    requires n >= 279
    ensures Fib(n) >= 0x1_0000_0000_0000_0000_0000_0000_0000_0000_0000_0000_0000_0000
  {
    var m := 1;
    Place138(m);
    Next(m + 137, 30960598847965113057878492344, 19134702400093278081449423917);
    Double(m + 138, 50095301248058391139327916261, 30960598847965113057878492344,
           m + 277, 5611500259351924431073312796924978741056961814867751431689, 3468097888158339286797581652104954628434169971646694834457);
    Next(m + 277, 5611500259351924431073312796924978741056961814867751431689, 3468097888158339286797581652104954628434169971646694834457);
    FibMonotone(m + 278, n);
  }

  lemma OneLimb(n: nat)
    requires n <= 93
    ensures Fib(n) < 0x1_0000_0000_0000_0000
  {
    var first := 94;
    Start(first);
    AtMost(n, first - 1, 0x1_0000_0000_0000_0000);
  }

  lemma ThreeLimbs(n: nat)
    requires Fib(n) < 0x1_0000_0000_0000_0000_0000_0000_0000_0000_0000_0000_0000_0000
    ensures n < 283
  {
    var first := 94;
    Rows(first);
    Before(n, first + 189, 0x1_0000_0000_0000_0000_0000_0000_0000_0000_0000_0000_0000_0000);
  }
}
