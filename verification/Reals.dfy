/** Signs of products of reals. They go through `Product`, so that sign arguments stay away from polynomial ones. */
module Reals {

  function Product(x: real, y: real): real { x * y }

  lemma ProductOfLikeSigns(x: real, y: real)
    requires (x > 0.0 && y > 0.0) || (x < 0.0 && y < 0.0)
    ensures Product(x, y) > 0.0
  {
  }

  lemma ProductCommutes(x: real, y: real)
    ensures Product(x, y) == Product(y, x)
  {
  }

  lemma ProductWithZero(y: real)
    ensures Product(0.0, y) == 0.0
  {
  }

  lemma SquareSign(x: real)
    ensures if x == 0.0 then Product(x, x) == 0.0 else Product(x, x) > 0.0
  {
    hide Product;
    if x == 0.0 {
      ProductWithZero(x);
    } else {
      ProductOfLikeSigns(x, x);
    }
  }

  lemma NoSquares(x: real, y: real, z: real)
    requires Product(x, x) + Product(y, y) + Product(z, z) == 0.0
    ensures x == 0.0 && y == 0.0 && z == 0.0
  {
    hide Product;
    SquareSign(x);
    SquareSign(y);
    SquareSign(z);
  }
}
