/** Every `InvalidArgumentException` the catalogue core throws, one
    constructor per message. */
module Errors {

  datatype Error =
    | CategoryNameEmpty
    | CategoryNameTooLong
    | ProductNameEmpty
    | ProductNameTooLong
    | CategoryIdEmpty
    | PriceNegative
    | ProductPriceNegative
    | ProductNotFound

  /** The exception message the source attaches to each error. */
  function Message(e: Error): string {
    match e
    case CategoryNameEmpty => "Category name cannot be empty"
    case CategoryNameTooLong => "Category name cannot exceed 255 characters"
    case ProductNameEmpty => "Product name cannot be empty"
    case ProductNameTooLong => "Product name cannot exceed 255 characters"
    case CategoryIdEmpty => "Category ID cannot be empty"
    case PriceNegative => "Price cannot be negative"
    case ProductPriceNegative => "Product price cannot be negative"
    case ProductNotFound => "Product not found"
  }
}
