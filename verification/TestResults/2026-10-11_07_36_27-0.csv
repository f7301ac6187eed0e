TestResult.DisplayName,TestResult.Outcome,TestResult.Duration,TestResult.ResourceCount,RandomSeed
Mesh.BlockTrisWinding (correctness),Failed,00:00:01.1011424,2024466,4
