/**
 Table look-up, for the tables that the code keeps as arrays of constants.
*/
module Tables {

  /** The x-th of sixteen. */
  function Pick(x: nat, a: nat, b: nat, c: nat, d: nat, e: nat, f: nat, g: nat, h: nat,
                i: nat, j: nat, k: nat, l: nat, m: nat, n: nat, o: nat, p: nat): nat {
    if x < 8 then Pick8(x, a, b, c, d, e, f, g, h) else Pick8(x - 8, i, j, k, l, m, n, o, p)
  }

  function Pick8(x: nat, a: nat, b: nat, c: nat, d: nat, e: nat, f: nat, g: nat, h: nat): nat {
    if x < 4 then if x < 2 then if x == 0 then a else b else if x == 2 then c else d
    else if x < 6 then if x == 4 then e else f else if x == 6 then g else h
  }
}
