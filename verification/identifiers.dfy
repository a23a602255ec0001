/** src/bresse/identifiers/base.py: the model identifier record. */
module Identifiers {

  /**
   * ModelId, a dataclass: its generated __eq__ compares the concrete class
   * and then the three fields, so the class name is part of the value.
   */
  datatype ModelId = ModelId(cls: string, id: string, inputCostMillion: int, outputCostMillion: int)

  const ModelIdClass: string := "ModelId"
}
